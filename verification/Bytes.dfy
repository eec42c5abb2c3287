/** Byte strings and substring search.

    A std::string, or a range of a character buffer, is modelled as a `string` whose characters stand
    for bytes. `IsBytes` says that every character really is one; it is needed only where numeric
    values matter. */
module Bytes {

  const CRLF := "\r\n"
  const DASH := "--"

  predicate IsBytes(s: string) {
    forall i :: 0 <= i < |s| ==> s[i] as int < 256
  }

  /** The pattern `p` stands at position `i` of `s`. */
  predicate OccursAt(s: string, p: string, i: nat) {
    i + |p| <= |s| && s[i..i + |p|] == p
  }

  ghost predicate Contains(s: string, p: string) {
    exists i: nat :: i <= |s| && OccursAt(s, p, i)
  }

  predicate StartsWith(s: string, p: string) {
    |p| <= |s| && s[..|p|] == p
  }

  lemma {:induction false} OccursAtZero(s: string, p: string)
    ensures OccursAt(s, p, 0) == StartsWith(s, p)
  {}

  lemma {:induction false} Regroup<T>(a: seq<T>, b: seq<T>, c: seq<T>)
    ensures a + (b + c) == (a + b) + c
  {}

  lemma {:induction false} SliceOfSlice(s: string, a: nat, b: nat, i: nat, j: nat)
    requires a <= b <= |s| && i <= j <= b - a
    ensures s[a..b][i..j] == s[a + i..a + j]
  {
    var t := s[a..b];
    forall k | 0 <= k < j - i ensures t[i..j][k] == s[a + i..a + j][k] {
      assert t[i + k] == s[a + (i + k)];
    }
  }

  /** `r` is the first position from `i` on at which `p` stands, or the length of `s` if there is none. */
  predicate IsFirst(s: string, p: string, i: nat, r: nat) {
    && i <= r <= |s|
    && (r < |s| ==> OccursAt(s, p, r))
    && forall j: nat :: i <= j < r ==> !OccursAt(s, p, j)
  }

  lemma {:induction false} FirstExists(s: string, p: string, i: nat)
    requires i <= |s|
    ensures exists r: nat :: IsFirst(s, p, i, r)
    decreases |s| - i
  {
    if i == |s| || OccursAt(s, p, i) {
      assert IsFirst(s, p, i, i);
    } else {
      FirstExists(s, p, i + 1);
      var r: nat :| IsFirst(s, p, i + 1, r);
      assert IsFirst(s, p, i, r);
    }
  }

  lemma {:induction false} FirstIsUnique(s: string, p: string, i: nat, q: nat, r: nat)
    requires IsFirst(s, p, i, q) && IsFirst(s, p, i, r)
    ensures q == r
  {}

  /** `std::string::find` from position `i`, with the length for `npos`. */
  function FindFrom(s: string, p: string, i: nat): (r: nat)
    requires i <= |s|
    ensures IsFirst(s, p, i, r)
  {
    FirstExists(s, p, i);
    assert forall q: nat, r: nat | IsFirst(s, p, i, q) && IsFirst(s, p, i, r) :: q == r by {
      forall q: nat, r: nat | IsFirst(s, p, i, q) && IsFirst(s, p, i, r) ensures q == r {
        FirstIsUnique(s, p, i, q, r);
      }
    }
    var r: nat :| r <= |s| && IsFirst(s, p, i, r);
    r
  }

  function Find(s: string, p: string): (r: nat)
    ensures r <= |s|
    ensures r < |s| ==> OccursAt(s, p, r)
    ensures forall j: nat :: j < r ==> !OccursAt(s, p, j)
  {
    FindFrom(s, p, 0)
  }

  lemma {:induction false} FindIs(s: string, p: string, r: nat)
    requires p != "" && r <= |s|
    requires r < |s| ==> OccursAt(s, p, r)
    requires forall j: nat :: j < r ==> !OccursAt(s, p, j)
    ensures Find(s, p) == r
  {
    var f := Find(s, p);
    assert f < |s| ==> OccursAt(s, p, f);
  }

  /** Occurrences survive appending; a later occurrence must reach into the appended part. */
  lemma {:induction false} OccursAppend(s: string, t: string, p: string, i: nat)
    requires i + |p| <= |s|
    ensures OccursAt(s + t, p, i) == OccursAt(s, p, i)
  {
    assert (s + t)[i..i + |p|] == s[i..i + |p|];
  }

  lemma {:induction false} OccursDrop(s: string, p: string, k: nat, i: nat)
    requires k <= i <= |s|
    ensures OccursAt(s[k..], p, i - k) == OccursAt(s, p, i)
  {
    if i + |p| <= |s| {
      assert s[k..][i - k..i - k + |p|] == s[i..i + |p|];
    }
  }

  /** A found occurrence stays the first one when more bytes arrive. */
  lemma {:induction false} FindAppendHit(s: string, t: string, p: string)
    requires p != "" && Find(s, p) < |s|
    ensures Find(s + t, p) == Find(s, p)
  {
    var r := Find(s, p);
    forall j: nat | j < r ensures !OccursAt(s + t, p, j) {
      OccursAppend(s, t, p, j);
    }
    OccursAppend(s, t, p, r);
    FindIs(s + t, p, r);
  }

  /** If the pattern is not in `s`, a first occurrence in `s + t` cannot lie wholly inside `s`. */
  lemma {:induction false} FindAppendMiss(s: string, t: string, p: string)
    requires p != "" && Find(s, p) == |s|
    ensures var r := Find(s + t, p); r + |p| > |s|
  {
    var r := Find(s + t, p);
    if r + |p| <= |s| {
      OccursAppend(s, t, p, r);
    }
  }

  /** Dropping a prefix that holds no occurrence shifts the first occurrence. */
  lemma {:induction false} FindDrop(s: string, p: string, k: nat)
    requires p != "" && k <= Find(s, p)
    ensures Find(s[k..], p) == Find(s, p) - k
  {
    var r := Find(s, p);
    forall j: nat | j < r - k ensures !OccursAt(s[k..], p, j) {
      OccursDrop(s, p, k, j + k);
    }
    OccursDrop(s, p, k, r);
    FindIs(s[k..], p, r - k);
  }

  /** Searching from a position is searching the suffix. */
  lemma {:induction false} FindFromIsFind(s: string, p: string, i: nat)
    requires p != "" && i <= |s|
    ensures Find(s[i..], p) == FindFrom(s, p, i) - i
  {
    var r := FindFrom(s, p, i);
    forall j: nat | j < r - i ensures !OccursAt(s[i..], p, j) {
      OccursDrop(s, p, i, i + j);
    }
    if r < |s| { OccursDrop(s, p, i, r); }
    FindIs(s[i..], p, r - i);
  }

  /** A pattern whose first character does not recur in it cannot overlap itself: after any text free of
      the pattern, the first occurrence in `text + p + rest` is right at the end of the text. */
  lemma {:induction false} FindAfterText(text: string, p: string, rest: string)
    requires p != "" && !Contains(text, p)
    requires forall k :: 0 < k < |p| ==> p[k] != p[0]
    ensures Find(text + p + rest, p) == |text|
  {
    var s := text + p + rest;
    assert s[|text|..|text| + |p|] == p;
    forall j: nat | j < |text| ensures !OccursAt(s, p, j) {
      if j + |p| <= |text| {
        OccursAppend(text, p + rest, p, j);
        assert text + (p + rest) == s;
      } else if j + |p| <= |s| {
        var k := |text| - j;
        assert s[j..j + |p|][k] == s[|text|] == p[0];
      }
    }
    FindIs(s, p, |text|);
  }

  lemma {:induction false} BeforeFirst(s: string, d: char)
    ensures d !in s[..Find(s, [d])]
  {
    var i := Find(s, [d]);
    forall j: nat | j < i ensures s[j] != d {
      assert !OccursAt(s, [d], j);
    }
  }

  lemma {:induction false} NoneFound(s: string, d: char)
    ensures Find(s, [d]) == |s| <==> d !in s
  {
    BeforeFirst(s, d);
    var i := Find(s, [d]);
    if i < |s| {
      assert OccursAt(s, [d], i);
      assert s[i] == s[i..i + 1][0] == d;
    } else {
      assert s[..i] == s;
    }
  }

  lemma {:induction false} FindChar(s: string, d: char, tail: string)
    requires d !in s
    ensures Find(s + [d] + tail, [d]) == |s|
  {
    var t := s + [d] + tail;
    forall j: nat | j < |s| ensures !OccursAt(t, [d], j) {
      assert t[j..j + 1][0] == s[j];
    }
    assert OccursAt(t, [d], |s|);
    FindIs(t, [d], |s|);
  }

  lemma {:induction false} FindCharAt(s: string, d: char, p: nat)
    requires p <= |s| && (p < |s| ==> s[p] == d)
    requires forall i :: 0 <= i < p ==> s[i] != d
    ensures Find(s, [d]) == p
  {
    forall j: nat | j < p ensures !OccursAt(s, [d], j) {
      assert s[j..j + 1][0] == s[j];
    }
    if p < |s| { assert s[p..p + 1] == [d]; }
    FindIs(s, [d], p);
  }

  function Concat(pieces: seq<string>): string {
    if pieces == [] then "" else pieces[0] + Concat(pieces[1..])
  }

  lemma {:induction false} ConcatCons(a: string, pieces: seq<string>)
    ensures Concat([a] + pieces) == a + Concat(pieces)
  {
    assert ([a] + pieces)[1..] == pieces;
  }

  lemma {:induction false} ConcatAppend(a: seq<string>, b: seq<string>)
    ensures Concat(a + b) == Concat(a) + Concat(b)
  {
    if a == [] {
      assert a + b == b;
    } else {
      ConcatAppend(a[1..], b);
      assert (a + b)[1..] == a[1..] + b;
      Regroup(a[0], Concat(a[1..]), Concat(b));
    }
  }

  lemma {:induction false} ConcatOne(a: string)
    ensures Concat([a]) == a
  {
    assert a + "" == a;
  }
}
