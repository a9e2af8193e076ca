/** The parts of Python's `str` that the pipeline relies on: `lower()`,
    `strip()` and the ordering `sorted()` uses on strings.  Characters are
    compared by code point, as Python does; case mapping and whitespace are
    modelled on ASCII only. */
module Text {

  /** `str.isspace()` on ASCII: tab, line feed, vertical tab, form feed,
      carriage return, the separators 0x1C-0x1F, and the space. */
  predicate IsSpace(c: char) {
    ('\t' <= c <= '\r') || ('\U{1C}' <= c <= '\U{1F}') || c == ' '
  }

  predicate IsUpper(c: char) {
    'A' <= c <= 'Z'
  }

  function LowerChar(c: char): (d: char)
    ensures !IsUpper(d)
    ensures IsSpace(d) <==> IsSpace(c)
    ensures !IsUpper(c) ==> d == c
  {
    if IsUpper(c) then (c as int + 32) as char else c
  }

  /** `s.lower()`. */
  function Lower(s: string): (r: string)
    ensures |r| == |s|
    ensures forall i :: 0 <= i < |s| ==> r[i] == LowerChar(s[i])
  {
    seq(|s|, i requires 0 <= i < |s| => LowerChar(s[i]))
  }

  /** Drops leading whitespace. */
  function TrimStart(s: string): string {
    if s != [] && IsSpace(s[0]) then TrimStart(s[1..]) else s
  }

  /** Drops trailing whitespace. */
  function TrimEnd(s: string): string {
    if s != [] && IsSpace(s[|s| - 1]) then TrimEnd(s[..|s| - 1]) else s
  }

  /** What `TrimStart` leaves is a suffix, after whitespace only, and does
      not start with whitespace. */
  lemma {:induction false} TrimStartIsSuffix(s: string)
    ensures var r := TrimStart(s);
      && |r| <= |s| && r == s[|s| - |r|..]
      && (forall k :: 0 <= k < |s| - |r| ==> IsSpace(s[k]))
      && (r == [] || !IsSpace(r[0]))
  {
    if s != [] && IsSpace(s[0]) {
      TrimStartIsSuffix(s[1..]);
      var r := TrimStart(s[1..]);
      assert s[1..][|s| - 1 - |r|..] == s[|s| - |r|..];
      forall k | 1 <= k < |s| - |r| ensures IsSpace(s[k]) {
        assert s[1..][k - 1] == s[k];
      }
    }
  }

  /** What `TrimEnd` leaves is a prefix, before whitespace only, and does
      not end with whitespace. */
  lemma {:induction false} TrimEndIsPrefix(s: string)
    ensures var r := TrimEnd(s);
      && |r| <= |s| && r == s[..|r|]
      && (forall k :: |r| <= k < |s| ==> IsSpace(s[k]))
      && (r == [] || !IsSpace(r[|r| - 1]))
  {
    if s != [] && IsSpace(s[|s| - 1]) {
      TrimEndIsPrefix(s[..|s| - 1]);
      var r := TrimEnd(s[..|s| - 1]);
      assert s[..|s| - 1][..|r|] == s[..|r|];
      forall k | |r| <= k < |s| - 1 ensures IsSpace(s[k]) {
        assert s[..|s| - 1][k] == s[k];
      }
    }
  }

  /** `r` is `s[i..j]`, and everything `s` has outside `i..j` is whitespace. */
  ghost predicate CutFrom(s: string, r: string, i: int, j: int) {
    && 0 <= i <= j <= |s|
    && r == s[i..j]
    && (forall k :: 0 <= k < i ==> IsSpace(s[k]))
    && (forall k :: j <= k < |s| ==> IsSpace(s[k]))
  }

  /** `s.strip()`: whitespace cut off both ends. */
  function Strip(s: string): string {
    TrimEnd(TrimStart(s))
  }

  /** What `strip()` leaves is a slice of its argument with only whitespace
      around it, and neither starts nor ends with whitespace. */
  lemma StripIsCut(s: string)
    ensures exists i, j :: CutFrom(s, Strip(s), i, j)
    ensures Strip(s) == [] || (!IsSpace(Strip(s)[0]) && !IsSpace(Strip(s)[|Strip(s)| - 1]))
  {
    var t := TrimStart(s);
    var r := Strip(s);
    TrimStartIsSuffix(s);
    TrimEndIsPrefix(t);
    assert r == TrimEnd(t);
    assert CutFrom(s, r, |s| - |t|, |s| - |t| + |r|);
  }

  /** A column name as `standardize` leaves it: no ASCII capital, and no
      whitespace at either end. */
  predicate IsNormalized(s: string) {
    && (forall i :: 0 <= i < |s| ==> !IsUpper(s[i]))
    && (s == [] || (!IsSpace(s[0]) && !IsSpace(s[|s| - 1])))
  }

  /** `c.lower().strip()`, the renaming of clean.py line 4. */
  function Normalize(c: string): string {
    Strip(Lower(c))
  }

  /** A renamed column has no capital and no surrounding whitespace. */
  lemma NormalizeIsNormalized(c: string)
    ensures IsNormalized(Normalize(c))
  {
    StripIsCut(Lower(c));
    CutKeepsLowerCase(Lower(c), Normalize(c));
  }

  lemma CutKeepsLowerCase(s: string, r: string)
    requires forall k :: 0 <= k < |s| ==> !IsUpper(s[k])
    requires exists i, j :: CutFrom(s, r, i, j)
    ensures forall k :: 0 <= k < |r| ==> !IsUpper(r[k])
  {
    var i, j :| CutFrom(s, r, i, j);
    assert forall k :: 0 <= k < |r| ==> r[k] == s[i + k];
  }

  /** Normalisation is a canonical form: a name already lower-case and
      trimmed is left as it is, so normalising twice changes nothing. */
  lemma NormalizeFixesNormalized(s: string)
    requires IsNormalized(s)
    ensures Normalize(s) == s
  {
    assert Lower(s) == s;
    assert TrimStart(s) == s;
    assert TrimEnd(s) == s;
  }

  lemma NormalizeIdempotent(c: string)
    ensures Normalize(Normalize(c)) == Normalize(c)
  {
    NormalizeIsNormalized(c);
    NormalizeFixesNormalized(Normalize(c));
  }

  /** Python's `<` on `str`: lexicographic by code point, a proper prefix
      before its extensions. */
  predicate Less(a: string, b: string) {
    if a == [] then b != []
    else b != [] && (a[0] < b[0] || (a[0] == b[0] && Less(a[1..], b[1..])))
  }

  lemma {:induction false} LessIrreflexive(a: string)
    ensures !Less(a, a)
  {
    if a != [] {
      LessIrreflexive(a[1..]);
    }
  }

  lemma {:induction false} LessTransitive(a: string, b: string, c: string)
    requires Less(a, b) && Less(b, c)
    ensures Less(a, c)
  {
    if a != [] && a[0] == b[0] && b[0] == c[0] {
      LessTransitive(a[1..], b[1..], c[1..]);
    }
  }

  lemma {:induction false} LessTotal(a: string, b: string)
    ensures a == b || Less(a, b) || Less(b, a)
  {
    if a != [] && b != [] && a[0] == b[0] {
      LessTotal(a[1..], b[1..]);
      if a[1..] == b[1..] {
        assert a == [a[0]] + a[1..] && b == [b[0]] + b[1..];
      }
    }
  }

  lemma LessAsymmetric(a: string, b: string)
    requires Less(a, b)
    ensures !Less(b, a)
  {
    if Less(b, a) {
      LessTransitive(a, b, a);
      LessIrreflexive(a);
    }
  }

  function Elements(s: seq<string>): set<string> {
    set x | x in s
  }

  /** Strictly ascending, hence also free of duplicates. */
  predicate StrictlySorted(s: seq<string>) {
    forall i, j :: 0 <= i < j < |s| ==> Less(s[i], s[j])
  }

  lemma LessThanAll(x: string, s: seq<string>)
    requires StrictlySorted(s) && s != [] && Less(x, s[0])
    ensures forall k :: 0 <= k < |s| ==> Less(x, s[k])
  {
    forall k | 0 < k < |s| {
      LessTransitive(x, s[0], s[k]);
    }
  }

  /** Inserts `x` into a strictly sorted sequence, unless it is there. */
  function InsertSorted(x: string, s: seq<string>): (r: seq<string>)
    requires StrictlySorted(s)
    ensures StrictlySorted(r)
    ensures Elements(r) == Elements(s) + {x}
  {
    if s == [] then [x]
    else if x == s[0] then s
    else if Less(x, s[0]) then
      LessThanAll(x, s);
      [x] + s
    else
      LessTotal(x, s[0]);
      var t := InsertSorted(x, s[1..]);
      assert Elements(s) == {s[0]} + Elements(s[1..]);
      assert Elements([s[0]] + t) == {s[0]} + Elements(t);
      forall k | 0 <= k < |t| ensures Less(s[0], t[k]) {
        if t[k] != x {
          assert t[k] in Elements(t);
          assert t[k] in Elements(s[1..]);
          var m :| 1 <= m < |s| && s[m] == t[k];
        }
      }
      [s[0]] + t
  }

  /** `sorted(set(s))`: the distinct strings of `s` in ascending order. */
  function SortedDistinct(s: seq<string>): (r: seq<string>)
    ensures StrictlySorted(r)
    ensures Elements(r) == Elements(s)
  {
    if s == [] then []
    else
      var t := SortedDistinct(s[1..]);
      assert Elements(s) == Elements(s[1..]) + {s[0]};
      InsertSorted(s[0], t)
  }

  /** A strictly sorted sequence is determined by its elements, so the
      sorted listing of a set does not depend on how the set was built. */
  lemma {:induction false} StrictlySortedUnique(a: seq<string>, b: seq<string>)
    requires StrictlySorted(a) && StrictlySorted(b)
    requires Elements(a) == Elements(b)
    ensures a == b
  {
    if a != [] {
      assert a[0] in Elements(a);
    }
    if b != [] {
      assert b[0] in Elements(b);
    }
    if a != [] && b != [] {
      // the head of each is the least element of the common set
      assert a[0] in Elements(b) && b[0] in Elements(a);
      if a[0] != b[0] {
        var i :| 0 <= i < |b| && b[i] == a[0];
        var j :| 0 <= j < |a| && a[j] == b[0];
        assert i > 0 && j > 0;
        LessAsymmetric(b[0], b[i]);
        assert false;
      }
      forall y | y in Elements(a[1..]) ensures y in Elements(b[1..]) {
        var k :| 1 <= k < |a| && a[k] == y;
        LessIrreflexive(a[0]);
        assert y != b[0] && y in Elements(b);
        var m :| 0 <= m < |b| && b[m] == y;
        assert b[1..][m - 1] == y;
      }
      forall y | y in Elements(b[1..]) ensures y in Elements(a[1..]) {
        var k :| 1 <= k < |b| && b[k] == y;
        LessIrreflexive(b[0]);
        assert y != a[0] && y in Elements(a);
        var m :| 0 <= m < |a| && a[m] == y;
        assert a[1..][m - 1] == y;
      }
      StrictlySortedUnique(a[1..], b[1..]);
      assert a == [a[0]] + a[1..] && b == [b[0]] + b[1..];
    }
  }
}
