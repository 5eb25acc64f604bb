/** The string operations the generator relies on, as Python 2 performs
    them on byte strings: `strip`, `lower`, `title` and `replace`. */
module Text {

  /** The characters Python 2's byte-string `str.strip()` removes. */
  predicate IsSpace(c: char) {
    c == ' ' || c == '\t' || c == '\n' || c == '\r' || c == '\U{0B}' || c == '\U{0C}'
  }

  predicate IsUpper(c: char) { 'A' <= c <= 'Z' }

  predicate IsLower(c: char) { 'a' <= c <= 'z' }

  /** Python's "cased" characters, restricted to ASCII. */
  predicate IsLetter(c: char) { IsUpper(c) || IsLower(c) }

  function LowerChar(c: char): (r: char)
    ensures IsLetter(r) == IsLetter(c) && !IsUpper(r)
  {
    if IsUpper(c) then (c as int + 32) as char else c
  }

  function UpperChar(c: char): (r: char)
    ensures IsLetter(r) == IsLetter(c) && !IsLower(r)
  {
    if IsLower(c) then (c as int - 32) as char else c
  }

  // ---------------------------------------------------------------- strip

  /** Drops leading whitespace. */
  function TrimStart(s: string): (r: string)
    ensures |r| <= |s| && r == s[|s| - |r|..]
    ensures forall k :: 0 <= k < |s| - |r| ==> IsSpace(s[k])
    ensures r != [] ==> !IsSpace(r[0])
  {
    if s != [] && IsSpace(s[0]) then TrimStart(s[1..]) else s
  }

  /** Drops trailing whitespace. */
  function TrimEnd(s: string): (r: string)
    ensures |r| <= |s| && r == s[..|r|]
    ensures forall k :: |r| <= k < |s| ==> IsSpace(s[k])
    ensures r != [] ==> !IsSpace(r[|r| - 1])
  {
    if s != [] && IsSpace(s[|s| - 1]) then TrimEnd(s[..|s| - 1]) else s
  }

  /** `r` is the slice of `s` that starts at `i`. */
  predicate SliceAt(r: string, s: string, i: int) {
    0 <= i <= |s| - |r| && r == s[i..i + |r|]
  }

  /** `r`, found at `i` in `s`, is `s` with its leading and trailing
      whitespace removed: everything of `s` before and after it is
      whitespace, and it neither starts nor ends with whitespace. */
  predicate StrippedAt(r: string, s: string, i: int) {
    && SliceAt(r, s, i)
    && (forall k :: 0 <= k < i ==> IsSpace(s[k]))
    && (forall k :: i + |r| <= k < |s| ==> IsSpace(s[k]))
    && (r != [] ==> !IsSpace(r[0]) && !IsSpace(r[|r| - 1]))
  }

  /** Python 2's byte-string `s.strip()`. */
  function Strip(s: string): (r: string)
    ensures exists i :: StrippedAt(r, s, i)
    ensures r == [] <==> forall k :: 0 <= k < |s| ==> IsSpace(s[k])
  {
    var t := TrimStart(s);
    TrimmedSlice(s, t, TrimEnd(t));
    TrimEnd(t)
  }

  /** What trimming the start of `s` into `t` and then the end of `t` into
      `r` leaves, from the two trims' own guarantees. */
  lemma TrimmedSlice(s: string, t: string, r: string)
    requires |t| <= |s| && t == s[|s| - |t|..]
    requires forall k :: 0 <= k < |s| - |t| ==> IsSpace(s[k])
    requires t != [] ==> !IsSpace(t[0])
    requires |r| <= |t| && r == t[..|r|]
    requires forall k :: |r| <= k < |t| ==> IsSpace(t[k])
    requires r != [] ==> !IsSpace(r[|r| - 1])
    ensures StrippedAt(r, s, |s| - |t|)
  {
    var i := |s| - |t|;
    assert r == s[i..i + |r|];
    forall k | i + |r| <= k < |s| ensures IsSpace(s[k]) {
      assert s[k] == t[k - i];
    }
    if r != [] {
      assert s[i] == r[0] == t[0];
    } else if t != [] {
      assert false;
    }
  }

  /** A stripped text is empty exactly when its input is all whitespace. */
  lemma StrippedEmpty(r: string, s: string, i: int)
    requires StrippedAt(r, s, i)
    ensures r == [] <==> forall k :: 0 <= k < |s| ==> IsSpace(s[k])
  {
    if r != [] {
      assert s[i] == r[0];
    }
  }

  /** The contract of `Strip` determines its result: a text has one
      stripped form. */
  lemma StrippedUnique(s: string, r1: string, i1: int, r2: string, i2: int)
    requires StrippedAt(r1, s, i1) && StrippedAt(r2, s, i2)
    ensures r1 == r2
  {
    StrippedEmpty(r1, s, i1);
    StrippedEmpty(r2, s, i2);
    if r1 != [] && r2 != [] {
      assert !IsSpace(s[i1]) && !IsSpace(s[i2]) by {
        assert s[i1] == r1[0] && s[i2] == r2[0];
      }
      assert i1 == i2;
      var e1, e2 := i1 + |r1| - 1, i2 + |r2| - 1;
      assert !IsSpace(s[e1]) && !IsSpace(s[e2]) by {
        assert s[e1] == r1[|r1| - 1] && s[e2] == r2[|r2| - 1];
      }
      assert |r1| == |r2|;
    }
  }

  /** `Strip` returns the only text its contract allows. */
  lemma StripIsTheStrippedForm(s: string, r: string, i: int)
    requires StrippedAt(r, s, i)
    ensures Strip(s) == r
  {
    var j :| StrippedAt(Strip(s), s, j);
    StrippedUnique(s, Strip(s), j, r, i);
  }

  // ---------------------------------------------------------------- lower

  /** Python's `s.lower()` on ASCII text. */
  function Lower(s: string): (r: string)
    ensures |r| == |s|
    ensures forall k :: 0 <= k < |s| ==> r[k] == LowerChar(s[k])
  {
    if s == [] then [] else [LowerChar(s[0])] + Lower(s[1..])
  }

  /** Lower-casing loses nothing on text without lower-case letters. */
  lemma LowerInjective(h: string, u: string)
    requires forall k :: 0 <= k < |h| ==> !IsLower(h[k])
    requires forall k :: 0 <= k < |u| ==> !IsLower(u[k])
    requires Lower(h) == Lower(u)
    ensures h == u
  {
    forall k | 0 <= k < |h| ensures h[k] == u[k] {
      assert LowerChar(h[k]) == LowerChar(u[k]);
    }
  }

  // ---------------------------------------------------------------- title

  /** Python's `s.title()` on ASCII text, scanning with a flag that says
      whether the previous character was a letter: a letter after a letter
      is lowered, any other letter is raised, non-letters are kept. */
  function TitleFrom(s: string, afterLetter: bool): (r: string)
    ensures |r| == |s|
  {
    if s == [] then []
    else
      var c := if !IsLetter(s[0]) then s[0]
               else if afterLetter then LowerChar(s[0])
               else UpperChar(s[0]);
      [c] + TitleFrom(s[1..], IsLetter(s[0]))
  }

  function Title(s: string): (r: string)
    ensures |r| == |s|
  {
    TitleFrom(s, false)
  }

  /** Title-casing ignores the case of its input. */
  lemma {:induction false} TitleFromIgnoresCase(s: string, afterLetter: bool)
    ensures TitleFrom(Lower(s), afterLetter) == TitleFrom(s, afterLetter)
  {
    if s != [] {
      assert Lower(s)[1..] == Lower(s[1..]);
      TitleFromIgnoresCase(s[1..], IsLetter(s[0]));
    }
  }

  lemma TitleIgnoresCase(s: string)
    ensures Title(Lower(s)) == Title(s)
  {
    TitleFromIgnoresCase(s, false);
  }

  // -------------------------------------------------------------- replace

  /** `pat` occurs in `s` starting at index `i`. */
  predicate OccursAt(s: string, pat: string, i: int) {
    0 <= i <= |s| - |pat| && s[i..i + |pat|] == pat
  }

  /** Python's `pat in s` for strings. */
  predicate Occurs(s: string, pat: string) {
    exists i | 0 <= i <= |s| - |pat| :: OccursAt(s, pat, i)
  }

  /** Python's `s.replace(pat, rep)` for a non-empty `pat`: every
      occurrence, found left to right without overlap, is replaced. */
  function Replace(s: string, pat: string, rep: string): string
    requires |pat| > 0
    decreases |s|
  {
    if |s| < |pat| then s
    else if s[..|pat|] == pat then rep + Replace(s[|pat|..], pat, rep)
    else [s[0]] + Replace(s[1..], pat, rep)
  }

  /** `s.replace(pat, '')`. */
  function Remove(s: string, pat: string): string
    requires |pat| > 0
  {
    Replace(s, pat, "")
  }

  /** A string in which `pat` does not occur is left as it is. */
  lemma {:induction false} ReplaceAbsent(s: string, pat: string, rep: string)
    requires |pat| > 0 && !Occurs(s, pat)
    ensures Replace(s, pat, rep) == s
    decreases |s|
  {
    if |s| >= |pat| {
      assert !OccursAt(s, pat, 0);
      assert s[..|pat|] != pat;
      forall i | 0 <= i <= |s[1..]| - |pat| ensures !OccursAt(s[1..], pat, i) {
        assert s[1..][i..i + |pat|] == s[i + 1..i + 1 + |pat|];
        assert !OccursAt(s, pat, i + 1);
      }
      ReplaceAbsent(s[1..], pat, rep);
    }
  }

  /** When `pat` occurs in `x + pat` only at its end, replacing
      touches exactly that trailing occurrence. */
  lemma {:induction false} ReplaceTrailing(x: string, pat: string, rep: string)
    requires |pat| > 0
    requires forall i :: 0 <= i < |x| ==> !OccursAt(x + pat, pat, i)
    ensures Replace(x + pat, pat, rep) == x + rep
    decreases |x|
  {
    var s := x + pat;
    if x == [] {
      assert s[..|pat|] == pat && s[|pat|..] == [];
    } else {
      assert !OccursAt(s, pat, 0);
      assert s[..|pat|] != pat;
      var y := x[1..];
      assert s[1..] == y + pat;
      forall i | 0 <= i < |y| ensures !OccursAt(y + pat, pat, i) {
        assert !OccursAt(s, pat, i + 1);
        if i <= |y + pat| - |pat| {
          assert (y + pat)[i..i + |pat|] == s[i + 1..i + 1 + |pat|];
        }
      }
      ReplaceTrailing(y, pat, rep);
      calc {
        Replace(s, pat, rep);
        [s[0]] + Replace(y + pat, pat, rep);
        [x[0]] + (y + rep);
        { assert [x[0]] + y == x; }
        x + rep;
      }
    }
  }

  /** If `c` is in `pat` but not in `s`, then `pat` does not occur in `s`. */
  lemma AbsentCharBlocks(s: string, pat: string, k: nat, c: char)
    requires k < |pat| && pat[k] == c && c !in s
    ensures !Occurs(s, pat)
  {
    forall i | 0 <= i <= |s| - |pat| ensures !OccursAt(s, pat, i) {
      assert s[i..i + |pat|][k] == s[i + k];
    }
  }

  /** If the first `c` of `pat` is at `k` and `x` has no `c`, then an
      occurrence of `pat` in `x + pat` cannot start inside `x`. */
  lemma NoEarlyOccurrence(x: string, pat: string, k: nat, c: char)
    requires k < |pat| && pat[k] == c && c !in pat[..k] && c !in x
    ensures forall i :: 0 <= i < |x| ==> !OccursAt(x + pat, pat, i)
  {
    var s := x + pat;
    forall i | 0 <= i < |x| ensures !OccursAt(s, pat, i) {
      if i <= |s| - |pat| {
        assert s[i..i + |pat|][k] == s[i + k];
        if i + k < |x| {
          assert s[i + k] == x[i + k];
        } else {
          assert s[i + k] == pat[i + k - |x|] == pat[..k][i + k - |x|];
        }
        assert s[i + k] != c;
      }
    }
  }

  /** Removing a one-character pattern removes every copy of it. */
  lemma {:induction false} RemoveCharClears(s: string, c: char)
    ensures c !in Remove(s, [c])
    decreases |s|
  {
    if |s| >= 1 {
      RemoveCharClears(s[1..], c);
      if s[..1] == [c] {
        assert Remove(s, [c]) == Remove(s[1..], [c]);
      } else {
        assert s[0] != c;
      }
    }
  }
}
