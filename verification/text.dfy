/**
 * The JavaScript string operations the quiz parser relies on: `String.prototype.trim`,
 * `String.prototype.split` with a one-character separator, `startsWith`, and the
 * character classes `\s` and `.` of its regular expressions.
 *
 * Most functions carry no postconditions of their own, so that using them costs the verifier
 * little; what they compute is stated by the lemmas beside them.
 */
module Text {

  /** ECMAScript WhiteSpace and LineTerminator code points: what `trim()` removes and `\s` matches. */
  predicate IsWhiteSpace(c: char)
  {
    var n := c as int;
    (9 <= n <= 13) || n == 0x20 || n == 0xA0 || n == 0x1680 || (0x2000 <= n <= 0x200A)
    || n == 0x2028 || n == 0x2029 || n == 0x202F || n == 0x205F || n == 0x3000 || n == 0xFEFF
  }

  /** ECMAScript LineTerminator code points: the characters `.` does not match. */
  predicate IsLineTerminator(c: char)
  {
    c == '\n' || c == '\r' || c as int == 0x2028 || c as int == 0x2029
  }

  /** Drops the longest whitespace prefix (also what a greedy `\s*` consumes). */
  function TrimStart(s: string): string
  {
    if s != [] && IsWhiteSpace(s[0]) then TrimStart(s[1..]) else s
  }

  /** Drops the longest whitespace suffix. */
  function TrimEnd(s: string): string
  {
    if s != [] && IsWhiteSpace(s[|s| - 1]) then TrimEnd(s[..|s| - 1]) else s
  }

  /** `s.trim()`: never longer than `s`, and neither starts nor ends with whitespace. */
  function Trim(s: string): (r: string)
    ensures |r| <= |s|
    ensures r == [] || (!IsWhiteSpace(r[0]) && !IsWhiteSpace(r[|r| - 1]))
  {
    TrimStartSpec(s);
    TrimEndSpec(TrimStart(s));
    TrimEnd(TrimStart(s))
  }

  /** The prefix up to (excluding) the first line terminator: what a greedy `(.*)` captures. */
  function UntilLineTerminator(s: string): string
  {
    if s == [] || IsLineTerminator(s[0]) then [] else [s[0]] + UntilLineTerminator(s[1..])
  }

  /** `s.startsWith(prefix)`. */
  predicate StartsWith(s: string, prefix: string)
  {
    |prefix| <= |s| && s[..|prefix|] == prefix
  }

  /** Index of the first `sep` in `s`, or `|s|` when there is none. */
  function IndexOf(s: string, sep: char): nat
  {
    if s == [] || s[0] == sep then 0 else 1 + IndexOf(s[1..], sep)
  }

  /** `s.split(sep)` for a one-character separator: an empty piece between adjacent
      separators and at either end. */
  function Split(s: string, sep: char): (pieces: seq<string>)
    ensures |pieces| >= 1
    decreases |s|
  {
    IndexOfSpec(s, sep);
    var i := IndexOf(s, sep);
    if i == |s| then [s] else [s[..i]] + Split(s[i + 1..], sep)
  }

  /** `pieces.join(sep)`. */
  function Join(pieces: seq<string>, sep: char): string
    requires |pieces| >= 1
  {
    if |pieces| == 1 then pieces[0] else pieces[0] + [sep] + Join(pieces[1..], sep)
  }

  // ---------------------------------------------------------------------------------------------
  // What the functions compute

  /** `trimStart` removes exactly the whitespace prefix. */
  lemma {:induction false} TrimStartSpec(s: string)
    ensures |TrimStart(s)| <= |s| && TrimStart(s) == s[|s| - |TrimStart(s)|..]
    ensures forall k :: 0 <= k < |s| - |TrimStart(s)| ==> IsWhiteSpace(s[k])
    ensures TrimStart(s) == [] || !IsWhiteSpace(TrimStart(s)[0])
  {
    if s != [] && IsWhiteSpace(s[0]) {
      var t := s[1..];
      TrimStartSpec(t);
      var r := TrimStart(t);
      assert TrimStart(s) == r;
      assert r == s[|s| - |r|..] by {
        assert t[|t| - |r|..] == s[|s| - |r|..];
      }
      assert forall k :: 0 <= k < |s| - |r| ==> IsWhiteSpace(s[k]) by {
        forall k | 0 <= k < |s| - |r| ensures IsWhiteSpace(s[k]) {
          if k > 0 { assert s[k] == t[k - 1]; }
        }
      }
    } else {
      assert TrimStart(s) == s == s[0..];
    }
  }

  /** `trimEnd` removes exactly the whitespace suffix. */
  lemma {:induction false} TrimEndSpec(s: string)
    ensures |TrimEnd(s)| <= |s| && TrimEnd(s) == s[..|TrimEnd(s)|]
    ensures forall k :: |TrimEnd(s)| <= k < |s| ==> IsWhiteSpace(s[k])
    ensures TrimEnd(s) == [] || !IsWhiteSpace(TrimEnd(s)[|TrimEnd(s)| - 1])
  {
    if s != [] && IsWhiteSpace(s[|s| - 1]) {
      var t := s[..|s| - 1];
      TrimEndSpec(t);
      var r := TrimEnd(t);
      assert TrimEnd(s) == r;
      assert t[..|r|] == s[..|r|];
      forall k | |r| <= k < |s| ensures IsWhiteSpace(s[k]) {
        if k < |s| - 1 { assert s[k] == t[k]; }
      }
    } else {
      assert TrimEnd(s) == s == s[..|s|];
    }
  }

  /** `s.trim()` is the slice of `s` that neither starts nor ends with whitespace and leaves
      only whitespace on either side of it. */
  lemma TrimSpec(s: string)
    ensures var i := |s| - |TrimStart(s)|;
            && 0 <= i && i + |Trim(s)| <= |s| && Trim(s) == s[i..i + |Trim(s)|]
            && (forall k :: 0 <= k < i ==> IsWhiteSpace(s[k]))
            && (forall k :: i + |Trim(s)| <= k < |s| ==> IsWhiteSpace(s[k]))
    ensures Trim(s) == [] || (!IsWhiteSpace(Trim(s)[0]) && !IsWhiteSpace(Trim(s)[|Trim(s)| - 1]))
  {
    var t := TrimStart(s);
    TrimStartSpec(s);
    TrimEndSpec(t);
    var r := Trim(s);
    var i := |s| - |t|;
    var j := i + |r|;
    assert r == t[..|r|];
    assert t[..|r|] == s[i..j];
    forall k | j <= k < |s| ensures IsWhiteSpace(s[k]) {
      assert s[k] == t[k - i];
    }
    if r != [] {
      assert r[0] == t[0];
    }
  }

  /** A line is blank for the parser exactly when every character is whitespace. */
  lemma TrimEmptyIff(s: string)
    ensures Trim(s) == [] <==> forall k :: 0 <= k < |s| ==> IsWhiteSpace(s[k])
  {
    var t := TrimStart(s);
    TrimStartSpec(s);
    TrimEndSpec(t);
    var i := |s| - |t|;
    assert forall k :: i <= k < |s| ==> s[k] == t[k - i];
    if t != [] {
      assert t[0] == s[i];
    }
  }

  /** Trimming the start twice is trimming it once, and `trim` ignores a trimmed start. */
  lemma TrimStartIdempotent(s: string)
    ensures TrimStart(TrimStart(s)) == TrimStart(s)
    ensures Trim(TrimStart(s)) == Trim(s)
  {
    TrimStartSpec(s);
  }

  /** `(.*)` captures the longest prefix free of line terminators. */
  lemma {:induction false} UntilLineTerminatorSpec(s: string)
    ensures |UntilLineTerminator(s)| <= |s| && UntilLineTerminator(s) == s[..|UntilLineTerminator(s)|]
    ensures forall k :: 0 <= k < |UntilLineTerminator(s)| ==> !IsLineTerminator(s[k])
    ensures |UntilLineTerminator(s)| == |s| || IsLineTerminator(s[|UntilLineTerminator(s)|])
  {
    if s != [] && !IsLineTerminator(s[0]) {
      var t := s[1..];
      UntilLineTerminatorSpec(t);
      var r := UntilLineTerminator(t);
      assert UntilLineTerminator(s) == [s[0]] + r;
      assert [s[0]] + t[..|r|] == s[..|r| + 1];
      forall k | 0 <= k < |r| + 1 ensures !IsLineTerminator(s[k]) {
        if k > 0 { assert s[k] == t[k - 1]; }
      }
      if |r| < |t| { assert s[|r| + 1] == t[|r|]; }
    } else {
      assert UntilLineTerminator(s) == [];
    }
  }

  /** `IndexOf` is the position of the first separator, or the length when there is none. */
  lemma {:induction false} IndexOfSpec(s: string, sep: char)
    ensures IndexOf(s, sep) <= |s|
    ensures forall k :: 0 <= k < IndexOf(s, sep) ==> s[k] != sep
    ensures IndexOf(s, sep) < |s| ==> s[IndexOf(s, sep)] == sep
  {
    if s != [] && s[0] != sep {
      var t := s[1..];
      IndexOfSpec(t, sep);
      assert IndexOf(s, sep) == 1 + IndexOf(t, sep);
      forall k | 0 <= k < IndexOf(s, sep) ensures s[k] != sep {
        if k > 0 { assert s[k] == t[k - 1]; }
      }
      if IndexOf(t, sep) < |t| { assert s[IndexOf(s, sep)] == t[IndexOf(t, sep)]; }
    }
  }

  /** No piece of a split contains the separator; the first piece is the text before the
      first separator. */
  lemma {:induction false} SplitSpec(s: string, sep: char)
    ensures forall i :: 0 <= i < |Split(s, sep)| ==> sep !in Split(s, sep)[i]
    ensures IndexOf(s, sep) <= |s| && Split(s, sep)[0] == s[..IndexOf(s, sep)]
    decreases |s|
  {
    IndexOfSpec(s, sep);
    var i := IndexOf(s, sep);
    if i < |s| {
      SplitSpec(s[i + 1..], sep);
      var r := Split(s, sep);
      forall j | 0 <= j < |r| ensures sep !in r[j] {
        if j > 0 {
          assert r[j] == Split(s[i + 1..], sep)[j - 1];
        } else {
          assert forall k :: 0 <= k < i ==> r[0][k] == s[k];
        }
      }
    } else {
      assert s[..i] == s;
    }
  }

  /** Joining the pieces of a split gives the original text back. */
  lemma {:induction false} JoinSplit(s: string, sep: char)
    ensures Join(Split(s, sep), sep) == s
    decreases |s|
  {
    IndexOfSpec(s, sep);
    var i := IndexOf(s, sep);
    if i < |s| {
      var rest := Split(s[i + 1..], sep);
      var pieces := [s[..i]] + rest;
      assert Split(s, sep) == pieces;
      assert pieces[0] == s[..i] && pieces[1..] == rest;
      assert Join(pieces, sep) == s[..i] + [sep] + Join(rest, sep);
      JoinSplit(s[i + 1..], sep);
      assert s == s[..i] + [sep] + s[i + 1..];
    } else {
      assert Split(s, sep) == [s];
    }
  }

  /** Splitting a join of separator-free pieces gives the pieces back. */
  lemma {:induction false} SplitJoin(pieces: seq<string>, sep: char)
    requires |pieces| >= 1
    requires forall i :: 0 <= i < |pieces| ==> sep !in pieces[i]
    ensures Split(Join(pieces, sep), sep) == pieces
  {
    if |pieces| == 1 {
      IndexOfAbsent(pieces[0], sep);
    } else {
      var s := Join(pieces, sep);
      var p := pieces[0];
      IndexOfAfter(p, Join(pieces[1..], sep), sep);
      assert s[..|p|] == p;
      assert s[|p| + 1..] == Join(pieces[1..], sep);
      SplitJoin(pieces[1..], sep);
    }
  }

  /** A separator in the text splits the text into the pieces on either side. */
  lemma {:induction false} SplitAppend(x: string, y: string, sep: char)
    ensures Split(x + [sep] + y, sep) == Split(x, sep) + Split(y, sep)
    decreases |x|
  {
    var s := x + [sep] + y;
    IndexOfSpec(x, sep);
    var i := IndexOf(x, sep);
    if i == |x| {
      IndexOfAfter(x, y, sep);
      assert Split(x, sep) == [x];
      assert s[..|x|] == x && s[|x| + 1..] == y;
      assert Split(s, sep) == [s[..|x|]] + Split(s[|x| + 1..], sep);
    } else {
      IndexOfPrefix(x, [sep] + y, sep);
      assert s == x + ([sep] + y);
      assert s[..i] == x[..i];
      assert s[i + 1..] == x[i + 1..] + [sep] + y;
      SplitAppend(x[i + 1..], y, sep);
    }
  }

  lemma IndexOfAbsent(s: string, sep: char)
    requires sep !in s
    ensures IndexOf(s, sep) == |s|
  {
    IndexOfSpec(s, sep);
  }

  lemma IndexOfFound(s: string, sep: char)
    requires sep in s
    ensures IndexOf(s, sep) < |s| && s[IndexOf(s, sep)] == sep
  {
    IndexOfSpec(s, sep);
  }

  lemma IndexOfAfter(x: string, y: string, sep: char)
    requires sep !in x
    ensures IndexOf(x + [sep] + y, sep) == |x|
  {
    var s := x + [sep] + y;
    IndexOfSpec(s, sep);
    assert s[|x|] == sep;
    assert forall k :: 0 <= k < |x| ==> s[k] == x[k];
  }

  lemma IndexOfPrefix(x: string, y: string, sep: char)
    requires sep in x
    ensures IndexOf(x + y, sep) == IndexOf(x, sep)
  {
    IndexOfSpec(x, sep);
    IndexOfSpec(x + y, sep);
    var i := IndexOf(x, sep);
    assert (x + y)[i] == x[i];
    forall k | 0 <= k < i ensures (x + y)[k] != sep {
      assert (x + y)[k] == x[k];
    }
  }

  /** One more element of a prefix. */
  lemma SliceExtend(s: string, i: nat)
    requires i < |s|
    ensures s[..i + 1] == s[..i] + [s[i]]
  {
  }
}
