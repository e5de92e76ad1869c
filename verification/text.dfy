/** The three string operations the component calls: `toLowerCase`,
    `trim` and `includes`. */
module Text {

  /** Lower-cases one character. Only the ASCII letters are mapped; every
      other character is left as it is. */
  function LowerChar(c: char): char
  {
    if 'A' <= c <= 'Z' then (c as int + 32) as char else c
  }

  /** `s.toLowerCase()`, restricted to ASCII letters. */
  function Lower(s: string): (r: string)
    ensures |r| == |s|
    ensures forall i :: 0 <= i < |s| ==> r[i] == LowerChar(s[i])
  {
    if s == [] then [] else [LowerChar(s[0])] + Lower(s[1..])
  }

  /** A lower-cased string has no upper-case ASCII letter left, and
      lower-casing it again changes nothing. */
  lemma LowerIsLower(s: string)
    ensures forall i :: 0 <= i < |Lower(s)| ==> !('A' <= Lower(s)[i] <= 'Z')
    ensures Lower(Lower(s)) == Lower(s)
  {
    var l := Lower(s);
    assert forall i :: 0 <= i < |l| ==> LowerChar(l[i]) == l[i];
  }

  /** The characters ECMAScript's `String.prototype.trim` strips: the
      WhiteSpace code points (tab, vertical tab, form feed, space, no-break
      space, byte order mark and the Zs category) and the LineTerminator
      code points (line feed, carriage return, line and paragraph
      separators). */
  predicate IsWhitespace(c: char)
  {
    var n := c as int;
    n == 0x09 || n == 0x0A || n == 0x0B || n == 0x0C || n == 0x0D || n == 0x20
    || n == 0xA0 || n == 0x1680 || (0x2000 <= n <= 0x200A)
    || n == 0x2028 || n == 0x2029 || n == 0x202F || n == 0x205F
    || n == 0x3000 || n == 0xFEFF
  }

  /** `s` with its leading whitespace removed: a suffix of `s`, everything
      cut off is whitespace, and what is left does not start with any. */
  function TrimStart(s: string): (r: string)
    ensures |r| <= |s| && r == s[|s| - |r|..]
    ensures forall i :: 0 <= i < |s| - |r| ==> IsWhitespace(s[i])
    ensures r != [] ==> !IsWhitespace(r[0])
  {
    if s != [] && IsWhitespace(s[0]) then TrimStart(s[1..]) else s
  }

  /** `s` with its trailing whitespace removed: a prefix of `s`, everything
      cut off is whitespace, and what is left does not end with any. */
  function TrimEnd(s: string): (r: string)
    ensures |r| <= |s| && r == s[..|r|]
    ensures forall i :: |r| <= i < |s| ==> IsWhitespace(s[i])
    ensures r != [] ==> !IsWhitespace(r[|r| - 1])
  {
    if s != [] && IsWhitespace(s[|s| - 1]) then TrimEnd(s[..|s| - 1]) else s
  }

  /** `s` occurs in `t` starting at index `i`. */
  predicate OccursAt(t: string, s: string, i: int)
  {
    0 <= i && i + |s| <= |t| && t[i..i + |s|] == s
  }

  /** `s.trim()`: leading and trailing whitespace removed. */
  function Trim(s: string): (r: string)
    ensures |r| <= |s|
  {
    TrimEnd(TrimStart(s))
  }

  /** The trimmed string is the piece of `s` that starts where the
      leading whitespace ends, and everything outside it is whitespace. */
  lemma TrimOccurs(s: string)
    ensures exists i :: OccursAt(s, Trim(s), i)
    ensures OccursAt(s, Trim(s), |s| - |TrimStart(s)|)
    ensures forall i :: 0 <= i < |s| - |TrimStart(s)| ==> IsWhitespace(s[i])
    ensures forall i :: |s| - |TrimStart(s)| + |Trim(s)| <= i < |s| ==> IsWhitespace(s[i])
  {
    var t := TrimStart(s);
    var r := TrimEnd(t);
    var k := |s| - |t|;
    SliceOfSlice(s, k, |r|);
    assert Trim(s) == r;
    assert OccursAt(s, Trim(s), k);
    forall i | k + |r| <= i < |s| ensures IsWhitespace(s[i]) {
      assert s[i] == t[i - k];
    }
  }

  lemma SliceOfSlice(s: string, k: nat, n: nat)
    requires k <= |s| && n <= |s| - k
    ensures s[k..][..n] == s[k..k + n]
  {
  }

  /** The trimmed string neither starts nor ends with whitespace. */
  lemma TrimHasNoOuterWhitespace(s: string)
    ensures Trim(s) != [] ==> !IsWhitespace(Trim(s)[0]) && !IsWhitespace(Trim(s)[|Trim(s)| - 1])
  {
    var t := TrimStart(s);
    var r := TrimEnd(t);
    if r != [] {
      assert r[0] == t[0];
    }
  }

  /** The trimmed string is empty exactly when `s` is all whitespace. */
  lemma TrimEmptyIffAllWhitespace(s: string)
    ensures Trim(s) == [] <==> forall i :: 0 <= i < |s| ==> IsWhitespace(s[i])
  {
    var t := TrimStart(s);
    var r := TrimEnd(t);
    assert r == [] ==> t == [];
  }

  /** `!s.trim()`: the string is empty once trimmed. */
  predicate IsBlank(s: string)
    ensures s == "" ==> IsBlank(s)
  {
    Trim(s) == ""
  }

  /** A string is blank exactly when every character of it is whitespace;
      in particular the empty string is blank. */
  lemma BlankIffAllWhitespace(s: string)
    ensures IsBlank(s) <==> forall i :: 0 <= i < |s| ==> IsWhitespace(s[i])
    ensures IsBlank("")
  {
    TrimEmptyIffAllWhitespace(s);
    TrimEmptyIffAllWhitespace("");
  }

  /** `prefix` is a prefix of `s`. */
  predicate StartsWith(s: string, prefix: string)
  {
    |prefix| <= |s| && s[..|prefix|] == prefix
  }

  /** `t.includes(s)`: tries every starting position from the left. */
  predicate Includes(t: string, s: string)
    decreases |t|
    ensures Includes(t, s) ==> |s| <= |t|
  {
    StartsWith(t, s) || (t != [] && Includes(t[1..], s))
  }

  /** `Includes` holds exactly when `s` occurs somewhere in `t`. */
  lemma {:induction false} IncludesIffOccurs(t: string, s: string)
    ensures Includes(t, s) <==> exists i :: OccursAt(t, s, i)
    decreases |t|
  {
    if StartsWith(t, s) {
      assert OccursAt(t, s, 0);
    } else if t != [] {
      IncludesIffOccurs(t[1..], s);
      if Includes(t[1..], s) {
        var j :| OccursAt(t[1..], s, j);
        assert t[j + 1..j + 1 + |s|] == t[1..][j..j + |s|];
        assert OccursAt(t, s, j + 1);
      }
      if exists i :: OccursAt(t, s, i) {
        var i :| OccursAt(t, s, i);
        assert i != 0;
        assert t[1..][i - 1..i - 1 + |s|] == t[i..i + |s|];
        assert OccursAt(t[1..], s, i - 1);
      }
    }
  }

  /** Every string includes the empty string. */
  lemma IncludesEmpty(t: string)
    ensures Includes(t, "")
  {
    assert StartsWith(t, "");
  }

  /** A non-empty string can only be included where its first character
      occurs. */
  lemma {:induction false} IncludesFirstChar(t: string, s: string)
    requires s != []
    ensures Includes(t, s) ==> s[0] in t
    decreases |t|
  {
    if t != [] && !StartsWith(t, s) {
      IncludesFirstChar(t[1..], s);
    }
  }
}
