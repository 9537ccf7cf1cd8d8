/** The JavaScript string operations the request script relies on:
    `String.prototype.split(",")` with its inverse `Array.prototype.join(",")`,
    `toLowerCase` (restricted to ASCII) and `String.prototype.includes`. */
module Text {

  /** The separator of the keyword list. */
  const Comma: char := ','

  // ---------------------------------------------------------------------------
  // split(",") and join(",")
  // ---------------------------------------------------------------------------

  /** `pieces.join(",")`: the pieces with one comma between neighbours. */
  function Join(pieces: seq<string>): string
  {
    if |pieces| == 0 then ""
    else if |pieces| == 1 then pieces[0]
    else pieces[0] + [Comma] + Join(pieces[1..])
  }

  /** `s.split(",")`: the maximal comma-free runs of `s`, in order, empty runs kept. */
  function Split(s: string): (pieces: seq<string>)
    ensures |pieces| >= 1
    ensures forall i :: 0 <= i < |pieces| ==> Comma !in pieces[i]
    ensures Join(pieces) == s
    decreases |s|
  {
    if s == [] then [""]
    else
      var rest := Split(s[1..]);
      if s[0] == Comma then
        assert ([""] + rest)[1..] == rest;
        [""] + rest
      else
        var first := [s[0]] + rest[0];
        assert ([first] + rest[1..])[1..] == rest[1..];
        assert s == [s[0]] + s[1..];
        [first] + rest[1..]
  }

  /** Splitting a comma-free prefix glued to a rest glues the prefix to the first piece. */
  lemma {:induction false} SplitPrefix(p: string, rest: string)
    requires Comma !in p
    ensures Split(p + rest) == [p + Split(rest)[0]] + Split(rest)[1..]
    decreases |p|
  {
    if p != [] {
      assert (p + rest)[1..] == p[1..] + rest;
      assert Comma !in p[1..];
      SplitPrefix(p[1..], rest);
      assert [p[0]] + (p[1..] + Split(rest)[0]) == p + Split(rest)[0];
    } else {
      var r := Split(rest);
      assert p + rest == rest && p + r[0] == r[0];
      assert r == [r[0]] + r[1..];
    }
  }

  /** A leading comma closes an empty first piece. */
  lemma SplitLeadingComma(tail: string)
    ensures Split([Comma] + tail) == [""] + Split(tail)
  {
    assert ([Comma] + tail)[1..] == tail;
  }

  /** A comma-free string is a single piece. */
  lemma SplitSingle(p: string)
    requires Comma !in p
    ensures Split(p) == [p]
  {
    SplitPrefix(p, "");
    assert p + "" == p;
  }

  /** A comma-free piece, a comma and a rest split into the piece and the rest's pieces. */
  lemma SplitCons(p: string, tail: string)
    requires Comma !in p
    ensures Split(p + [Comma] + tail) == [p] + Split(tail)
  {
    SplitLeadingComma(tail);
    SplitPrefix(p, [Comma] + tail);
    assert p + [Comma] + tail == p + ([Comma] + tail);
    assert p + "" == p;
  }

  /** Splitting a join of comma-free pieces gives the pieces back: together with
      the contract of `Split`, the pieces of `s.split(",")` are the only
      comma-free, non-empty list of strings whose join is `s`. */
  lemma {:induction false} SplitJoin(pieces: seq<string>)
    requires |pieces| >= 1
    requires forall i :: 0 <= i < |pieces| ==> Comma !in pieces[i]
    ensures Split(Join(pieces)) == pieces
  {
    if |pieces| == 1 {
      SplitSingle(pieces[0]);
    } else {
      SplitJoin(pieces[1..]);
      SplitCons(pieces[0], Join(pieces[1..]));
      assert pieces == [pieces[0]] + pieces[1..];
    }
  }

  /** Two lists of pieces that split the same string are equal. */
  lemma SplitUnique(s: string, pieces: seq<string>)
    requires |pieces| >= 1
    requires forall i :: 0 <= i < |pieces| ==> Comma !in pieces[i]
    requires Join(pieces) == s
    ensures pieces == Split(s)
  {
    SplitJoin(pieces);
  }

  // ---------------------------------------------------------------------------
  // ASCII toLowerCase / toUpperCase
  // ---------------------------------------------------------------------------

  predicate IsUpper(c: char) { 'A' <= c <= 'Z' }
  predicate IsLower(c: char) { 'a' <= c <= 'z' }

  /** ASCII `toLowerCase` of one character; every other character is unchanged. */
  function Lower(c: char): (d: char)
    ensures IsUpper(c) ==> IsLower(d) && d as int == c as int + 32
    ensures !IsUpper(c) ==> d == c
  {
    if IsUpper(c) then (c as int + 32) as char else c
  }

  /** ASCII `toUpperCase` of one character; every other character is unchanged. */
  function Upper(c: char): (d: char)
    ensures IsLower(c) ==> IsUpper(d) && d as int + 32 == c as int
    ensures !IsLower(c) ==> d == c
  {
    if IsLower(c) then (c as int - 32) as char else c
  }

  /** `s.toLowerCase()` over ASCII: no upper-case letter is left, every other
      character stays where it was, and each character at most changes case. */
  function LowerStr(s: string): (r: string)
    ensures |r| == |s|
    ensures forall i :: 0 <= i < |r| ==> !IsUpper(r[i])
    ensures forall i :: 0 <= i < |s| && !IsUpper(s[i]) ==> r[i] == s[i]
    ensures CaseChange(s, r)
  {
    seq(|s|, i requires 0 <= i < |s| => Lower(s[i]))
  }

  /** `s.toUpperCase()` over ASCII. The script never upper-cases; this only
      serves as a sanity check that `CaseChange` admits whole-string changes. */
  function UpperStr(s: string): (r: string)
    ensures |r| == |s|
    ensures forall i :: 0 <= i < |s| ==> r[i] == Upper(s[i])
  {
    seq(|s|, i requires 0 <= i < |s| => Upper(s[i]))
  }

  /** `b` is `a` with an arbitrary ASCII case change applied to each character. */
  ghost predicate CaseChange(a: string, b: string)
  {
    |a| == |b| && forall i :: 0 <= i < |a| ==> b[i] == a[i] || b[i] == Lower(a[i]) || b[i] == Upper(a[i])
  }

  /** Lower-casing twice is lower-casing once. */
  lemma LowerIdempotent(s: string)
    ensures LowerStr(LowerStr(s)) == LowerStr(s)
  {
    var r := LowerStr(s);
    assert forall i :: 0 <= i < |r| ==> LowerStr(r)[i] == r[i];
  }

  /** A case change is invisible after lower-casing. */
  lemma CaseChangeSameLower(a: string, b: string)
    requires CaseChange(a, b)
    ensures LowerStr(a) == LowerStr(b)
  {
    forall i | 0 <= i < |a|
      ensures LowerStr(a)[i] == LowerStr(b)[i]
    {
      if IsLower(a[i]) && b[i] == Upper(a[i]) {
        assert Lower(b[i]) as int == a[i] as int;
      }
    }
  }

  /** Sanity check of `CaseChange`: upper-casing a whole string and
      lower-casing it are both case changes. */
  lemma UpperLowerAreCaseChanges(s: string)
    ensures CaseChange(s, UpperStr(s)) && CaseChange(s, LowerStr(s))
  {
  }

  // ---------------------------------------------------------------------------
  // includes
  // ---------------------------------------------------------------------------

  /** `needle` sits in `hay` at offset `i`. */
  ghost predicate OccursAt(hay: string, needle: string, i: int)
  {
    0 <= i && i + |needle| <= |hay| && hay[i..i + |needle|] == needle
  }

  /** `needle` is a substring of `hay`: the meaning of `hay.includes(needle)`. */
  ghost predicate Occurs(hay: string, needle: string)
  {
    exists i :: OccursAt(hay, needle, i)
  }

  /** When `needle` is not a prefix of a longer `hay`, it occurs in `hay`
      exactly when it occurs in `hay` without its first character. */
  lemma OccursShift(hay: string, needle: string)
    requires |needle| < |hay| && hay[..|needle|] != needle
    ensures Occurs(hay, needle) <==> Occurs(hay[1..], needle)
  {
    if Occurs(hay[1..], needle) {
      var i :| OccursAt(hay[1..], needle, i);
      assert hay[1..][i..i + |needle|] == hay[i + 1..i + 1 + |needle|];
      assert OccursAt(hay, needle, i + 1);
    }
    if Occurs(hay, needle) {
      var i :| OccursAt(hay, needle, i);
      assert i != 0 by { assert hay[..|needle|] == hay[0..|needle|]; }
      assert hay[1..][i - 1..i - 1 + |needle|] == hay[i..i + |needle|];
      assert OccursAt(hay[1..], needle, i - 1);
    }
  }

  /** `hay.includes(needle)`, tried at each offset from the left: true exactly
      when `needle` occurs in `hay`, so the empty needle is in every string. */
  function Includes(hay: string, needle: string): (b: bool)
    ensures b <==> Occurs(hay, needle)
    decreases |hay|
  {
    if |needle| <= |hay| && hay[..|needle|] == needle then
      assert OccursAt(hay, needle, 0);
      true
    else if |hay| <= |needle| then false
    else
      OccursShift(hay, needle);
      Includes(hay[1..], needle)
  }
}
