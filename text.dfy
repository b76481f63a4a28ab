/**
 * String handling of the portal: the `clean` helper applied to every posted
 * form field, and the comparisons the database collation performs on text
 * (equality, uniqueness and the `LIKE '%q%'` substring search).
 */
module Text {

  /** A form field as the request carries it: absent, or posted with a value. */
  datatype Field = Missing | Posted(value: string)

  /** The characters PHP's `trim` strips by default: space, tab, LF, CR, NUL, vertical tab. */
  predicate IsSpace(c: char) {
    c == ' ' || c == '\t' || c == '\n' || c == '\r' || c == '\0' || c == '\U{B}'
  }

  /** Every character of `s` in positions `lo` up to (excluding) `hi` is whitespace. */
  predicate SpaceBetween(s: string, lo: int, hi: int) {
    forall k :: lo <= k < hi && 0 <= k < |s| ==> IsSpace(s[k])
  }

  predicate AllSpace(s: string) {
    SpaceBetween(s, 0, |s|)
  }

  /** Drops the leading whitespace of `s`. */
  function TrimLeft(s: string): (r: string)
    ensures |r| <= |s|
  {
    if |s| > 0 && IsSpace(s[0]) then TrimLeft(s[1..]) else s
  }

  /** `TrimLeft` keeps a suffix of `s`, drops only whitespace, and stops at the first other character. */
  lemma {:induction false} TrimLeftSpec(s: string)
    ensures var r := TrimLeft(s);
      |r| <= |s| && r == s[|s| - |r|..] && SpaceBetween(s, 0, |s| - |r|) && (r == [] || !IsSpace(r[0]))
  {
    if |s| > 0 && IsSpace(s[0]) {
      TrimLeftSpec(s[1..]);
    }
  }

  /** Drops the trailing whitespace of `s`. */
  function TrimRight(s: string): (r: string)
    ensures |r| <= |s|
  {
    if |s| > 0 && IsSpace(s[|s| - 1]) then TrimRight(s[..|s| - 1]) else s
  }

  /** `TrimRight` keeps a prefix of `s`, drops only whitespace, and stops at the last other character. */
  lemma {:induction false} TrimRightSpec(s: string)
    ensures var r := TrimRight(s);
      |r| <= |s| && r == s[..|r|] && SpaceBetween(s, |r|, |s|) && (r == [] || !IsSpace(r[|r| - 1]))
  {
    if |s| > 0 && IsSpace(s[|s| - 1]) {
      TrimRightSpec(s[..|s| - 1]);
    }
  }

  /** `r` is `s` with exactly `i` leading and `|s| - i - |r|` trailing whitespace characters removed. */
  predicate StripsTo(s: string, i: nat, r: string) {
    i + |r| <= |s| && r == s[i..i + |r|] && SpaceBetween(s, 0, i) && SpaceBetween(s, i + |r|, |s|)
  }

  /** PHP's `trim` with its default character list. */
  function Trim(s: string): string {
    TrimRight(TrimLeft(s))
  }

  /**
   * `Trim` removes whitespace only, and only at the two ends, and leaves no
   * whitespace at either end of its result.
   */
  lemma TrimSpec(s: string)
    ensures exists i: nat :: StripsTo(s, i, Trim(s))
    ensures Trim(s) == [] || (!IsSpace(Trim(s)[0]) && !IsSpace(Trim(s)[|Trim(s)| - 1]))
  {
    TrimLeftSpec(s);
    TrimRightSpec(TrimLeft(s));
    TrimParts(s);
    assert StripsTo(s, |s| - |TrimLeft(s)|, Trim(s));
  }

  lemma TrimParts(s: string)
    ensures StripsTo(s, |s| - |TrimLeft(s)|, TrimRight(TrimLeft(s)))
  {
    TrimLeftSpec(s);
    TrimMiddle(s);
    TrimTail(s);
  }

  lemma TrimMiddle(s: string)
    ensures var l := TrimLeft(s); var r := TrimRight(l); r == s[|s| - |l|..|s| - |l| + |r|]
  {
    var l := TrimLeft(s);
    var r := TrimRight(l);
    TrimLeftSpec(s);
    TrimRightSpec(l);
    var i := |s| - |l|;
    assert l == s[i..];
    assert r == l[..|r|];
  }

  lemma TrimTail(s: string)
    ensures var l := TrimLeft(s); var r := TrimRight(l); SpaceBetween(s, |s| - |l| + |r|, |s|)
  {
    var l := TrimLeft(s);
    var r := TrimRight(l);
    TrimLeftSpec(s);
    TrimRightSpec(l);
    var i := |s| - |l|;
    assert l == s[i..];
    assert SpaceBetween(l, |r|, |l|);
    forall k | i + |r| <= k < |s| ensures IsSpace(s[k]) {
      var j := k - i;
      assert |r| <= j < |l|;
      assert IsSpace(l[j]);
      assert l[j] == s[k];
    }
  }

  /** `clean($s)`: the trimmed field, a missing field counting as the empty string. */
  function Clean(f: Field): string {
    match f
    case Missing => ""
    case Posted(s) => Trim(s)
  }

  /** A field is blank after cleaning exactly when it is missing or holds only whitespace. */
  lemma CleanBlank(f: Field)
    ensures Clean(f) == "" <==> (f.Missing? || AllSpace(f.value))
  {
    if f.Posted? {
      var s := f.value;
      var l := TrimLeft(s);
      TrimLeftSpec(s);
      TrimRightSpec(l);
      TrimParts(s);
      var i := |s| - |l|;
      if Trim(s) == "" {
        assert AllSpace(s) by {
          assert SpaceBetween(s, 0, i) && SpaceBetween(s, i, |s|);
        }
      } else {
        assert s[i] == l[0] == Trim(s)[0];
      }
    }
  }

  /** A string with no whitespace at either end is left unchanged by `Trim`. */
  lemma TrimKeeps(s: string)
    requires s == [] || (!IsSpace(s[0]) && !IsSpace(s[|s| - 1]))
    ensures Trim(s) == s
  {
    assert TrimLeft(s) == s;
  }

  /** Cleaning twice is the same as cleaning once. */
  lemma CleanIdempotent(f: Field)
    ensures Clean(Posted(Clean(f))) == Clean(f)
  {
    if f.Posted? {
      TrimSpec(f.value);
    }
    TrimKeeps(Clean(f));
  }

  /** The case folding of the text collation, restricted to ASCII letters. */
  function Lower(c: char): (d: char)
    ensures 'A' <= c <= 'Z' ==> d as int == c as int + 32
    ensures !('A' <= c <= 'Z') ==> d == c
  {
    if 'A' <= c <= 'Z' then (c as int + 32) as char else c
  }

  /** The collation key of a string: what equality and `LIKE` compare. */
  function Fold(s: string): (r: string)
    ensures |r| == |s|
    ensures forall k :: 0 <= k < |s| ==> r[k] == Lower(s[k])
  {
    seq(|s|, k requires 0 <= k < |s| => Lower(s[k]))
  }

  /** Two strings are equal under the collation. */
  predicate SameText(a: string, b: string) {
    Fold(a) == Fold(b)
  }

  /** Two strings are equal under the collation exactly when they have the same length and agree at every position up to case. */
  lemma SameTextIgnoresCase(a: string, b: string)
    ensures SameText(a, b) <==> |a| == |b| && forall k :: 0 <= k < |a| ==> Lower(a[k]) == Lower(b[k])
  {
    if |a| == |b| && forall k :: 0 <= k < |a| ==> Lower(a[k]) == Lower(b[k]) {
      assert Fold(a) == Fold(b);
    }
  }

  /** Equality under the collation changes nothing but letter case: any other character must match exactly. */
  lemma SameTextOnlyCase(a: string, b: string, k: int)
    requires SameText(a, b) && 0 <= k < |a|
    requires !('A' <= a[k] <= 'Z') && !('a' <= a[k] <= 'z')
    ensures |a| == |b| && a[k] == b[k]
  {
    assert Fold(a)[k] == Fold(b)[k];
  }

  /** `p` occurs in `s` as a contiguous block, tried from the front. */
  predicate Contains(s: string, p: string)
    decreases |s|
  {
    (|p| <= |s| && s[..|p|] == p) || (|s| > 0 && Contains(s[1..], p))
  }

  /** `p` occurs in `s` starting at offset `i`. */
  predicate OccursAt(s: string, p: string, i: nat) {
    i + |p| <= |s| && s[i..i + |p|] == p
  }

  /** A match found by `Contains` starts at some offset. */
  lemma {:induction false} ContainsOccurs(s: string, p: string)
    requires Contains(s, p)
    ensures exists i: nat :: OccursAt(s, p, i)
    decreases |s|
  {
    if |p| <= |s| && s[..|p|] == p {
      assert OccursAt(s, p, 0);
    } else {
      ContainsOccurs(s[1..], p);
      var i: nat :| OccursAt(s[1..], p, i);
      assert s[i + 1..i + 1 + |p|] == s[1..][i..i + |p|];
      assert OccursAt(s, p, i + 1);
    }
  }

  /** An occurrence at any offset is found by `Contains`. */
  lemma {:induction false} OccursContains(s: string, p: string, i: nat)
    requires OccursAt(s, p, i)
    ensures Contains(s, p)
    decreases i
  {
    if i == 0 {
      assert s[..|p|] == s[0..|p|];
    } else {
      assert s[1..][i - 1..i - 1 + |p|] == s[i..i + |p|];
      OccursContains(s[1..], p, i - 1);
    }
  }

  /** `Contains` agrees with the direct definition: some offset where `p` starts in `s`. */
  lemma ContainsAt(s: string, p: string)
    ensures Contains(s, p) <==> exists i: nat :: OccursAt(s, p, i)
  {
    if Contains(s, p) {
      ContainsOccurs(s, p);
    }
    if i: nat :| OccursAt(s, p, i) {
      OccursContains(s, p, i);
    }
  }

  /** `column LIKE '%p%'`: `p` occurs in the column value, compared under the collation. */
  predicate Like(column: string, p: string) {
    Contains(Fold(column), Fold(p))
  }

  /** The search ignores case: "ana" finds "Ananya" but not "Bikram". */
  lemma LikeExample()
    ensures Like("Ananya", "ana")
    ensures !Like("Bikram", "ana")
  {
    assert Fold("Ananya")[..3] == "ana";
    var b, p := Fold("Bikram"), Fold("ana");
    assert |b| == 6 && b[0] == 'b' && b[1] == 'i' && b[2] == 'k' && b[3] == 'r';
    assert |p| == 3 && p[0] == 'a';
    forall i: nat ensures !OccursAt(b, p, i) {
      if i + |p| <= |b| {
        assert b[i..i + |p|][0] == b[i];
        assert i == 0 || i == 1 || i == 2 || i == 3;
      }
    }
    ContainsAt(b, p);
  }
}
