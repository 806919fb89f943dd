/** The few JavaScript string operations the reference compiler relies on:
    `indexOf`, `split(sep)[0]`, the regular-expression `replace(/\\/g, '/')`
    and the ASCII case folding of a case-insensitive regular expression. */
module Text {
  import opened Results

  /** `t` occurs in `s` starting at position `i`. */
  predicate OccursAt(s: string, t: string, i: nat) {
    i + |t| <= |s| && s[i..i + |t|] == t
  }

  /** `s.indexOf(t, from)`: the least position at or after `from` where `t` occurs. */
  function IndexOf(s: string, t: string, from: nat): (r: Option<nat>)
    ensures r.Some? ==> from <= r.value && OccursAt(s, t, r.value)
    decreases |s| - from
  {
    if |s| < from + |t| then None
    else if s[from..from + |t|] == t then Some(from)
    else IndexOf(s, t, from + 1)
  }

  /** The position `IndexOf` finds is the first one: no occurrence starts
      between `from` and it, and none at all when it finds nothing. */
  lemma {:induction false} IndexOfFirst(s: string, t: string, from: nat)
    ensures IndexOf(s, t, from).Some? ==> forall j: nat :: from <= j < IndexOf(s, t, from).value ==> !OccursAt(s, t, j)
    ensures IndexOf(s, t, from).None? ==> forall j: nat :: from <= j ==> !OccursAt(s, t, j)
    decreases |s| - from
  {
    if |s| >= from + |t| && s[from..from + |t|] != t {
      IndexOfFirst(s, t, from + 1);
    }
  }

  /** `s.indexOf(t) !== -1` */
  predicate Contains(s: string, t: string) {
    IndexOf(s, t, 0).Some?
  }

  lemma ContainsAt(s: string, t: string, i: nat)
    requires OccursAt(s, t, i)
    ensures Contains(s, t)
  {
    IndexOfFirst(s, t, 0);
  }

  /** A text that lacks one of the characters of `t` does not contain `t`. */
  lemma LacksChar(s: string, t: string, c: char)
    requires c in t && c !in s
    ensures !Contains(s, t)
  {
  }

  /** Text around an occurrence does not remove it. */
  lemma {:induction false} ContainsWithin(a: string, s: string, b: string, t: string)
    requires Contains(s, t)
    ensures Contains(a + s + b, t)
  {
    var i := IndexOf(s, t, 0).value;
    var w := a + s + b;
    assert w[|a| + i..|a| + i + |t|] == s[i..i + |t|];
    ContainsAt(w, t, |a| + i);
  }

  lemma ContainsInExtension(s: string, w: string, t: string)
    requires Contains(s, t) && s <= w
    ensures Contains(w, t)
  {
    ContainsWithin("", s, w[|s|..], t);
    assert "" + s + w[|s|..] == w;
  }

  lemma ContainsInSuffix(a: string, s: string, t: string)
    requires Contains(s, t)
    ensures Contains(a + s, t)
  {
    ContainsWithin(a, s, "", t);
    assert a + s + "" == a + s;
  }

  /** `s.split(sep)[0]`: the text of `s` before the first occurrence of `sep`,
      or all of `s` when `sep` does not occur in it. */
  function BeforeFirst(s: string, sep: string): (p: string)
    requires sep != ""
    ensures p <= s
    ensures !Contains(p, sep)
    ensures p == s <==> !Contains(s, sep)
    ensures p != s ==> OccursAt(s, sep, |p|)
    ensures forall j: nat :: j < |p| ==> !OccursAt(s, sep, j)
  {
    match IndexOf(s, sep, 0)
    case Some(i) =>
      var p := s[..i];
      IndexOfFirst(s, sep, 0);
      forall j: nat | j + |sep| <= |p| ensures !OccursAt(p, sep, j) {
        assert j < i;
        assert !OccursAt(s, sep, j);
        assert p[j..j + |sep|] == s[j..j + |sep|];
      }
      p
    case None =>
      IndexOfFirst(s, sep, 0);
      s
  }

  /** No proper suffix of `t` is also a prefix of `t`. */
  predicate Unbordered(t: string) {
    forall k :: 0 < k < |t| ==> t[k..] != t[..|t| - k]
  }

  /** A text whose first character does not recur in it has no border. */
  lemma FirstCharUnique(t: string)
    requires t != []
    requires forall k :: 0 < k < |t| ==> t[k] != t[0]
    ensures Unbordered(t)
  {
    forall k | 0 < k < |t| ensures t[k..] != t[..|t| - k] {
      assert t[k..][0] == t[k];
    }
  }

  /** Appending an unbordered `t` to a text that lacks it puts the first
      occurrence of `t` exactly at the junction, whatever follows. */
  lemma FirstOccurrenceAfter(p: string, t: string, rest: string)
    requires t != [] && Unbordered(t)
    requires !Contains(p, t)
    ensures IndexOf(p + t + rest, t, 0) == Some(|p|)
  {
    var s := p + t + rest;
    assert s[|p|..|p| + |t|] == t;
    forall j: nat | j < |p| ensures !OccursAt(s, t, j) {
      if j + |t| <= |p| {
        assert s[j..j + |t|] == p[j..j + |t|];
        if OccursAt(s, t, j) {
          ContainsAt(p, t, j);
        }
      } else {
        var k := |p| - j;
        assert s[j..j + |t|][k..] == t[..|t| - k];
      }
    }
    assert OccursAt(s, t, |p|);
    IndexOfFirst(s, t, 0);
    var r := IndexOf(s, t, 0);
    assert r.Some?;
    assert !(r.value < |p|) && !(r.value > |p|);
  }

  /** `s.replace(/\\/g, '/')`: every backslash becomes a forward slash. */
  function Slashed(s: string): (r: string)
    ensures |r| == |s|
    ensures forall i :: 0 <= i < |s| ==> r[i] == if s[i] == '\\' then '/' else s[i]
    ensures '\\' !in r
  {
    if s == [] then [] else [if s[0] == '\\' then '/' else s[0]] + Slashed(s[1..])
  }

  lemma SlashedAppend(a: string, b: string)
    ensures Slashed(a + b) == Slashed(a) + Slashed(b)
  {
    assert forall i :: 0 <= i < |a + b| ==> Slashed(a + b)[i] == (Slashed(a) + Slashed(b))[i];
  }

  lemma SlashedNoBackslash(s: string)
    requires '\\' !in s
    ensures Slashed(s) == s
  {
    assert forall i :: 0 <= i < |s| ==> Slashed(s)[i] == s[i];
  }

  /** ASCII case folding, as a non-Unicode case-insensitive regular expression does it. */
  function Lower(c: char): char {
    if 'A' <= c <= 'Z' then (c as int + 32) as char else c
  }

  predicate SameIgnoringCase(s: string, t: string) {
    |s| == |t| && forall i :: 0 <= i < |s| ==> Lower(s[i]) == Lower(t[i])
  }
}
