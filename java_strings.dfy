/**
 * The java.lang.String operations the plugin calls: trim(), split("\n") and
 * replace(CharSequence, CharSequence). Beside them are helpers for library internals:
 * LastIndexOf is the scan inside Guava's getNameWithoutExtension and File.getName,
 * IndexOf is split's own scan for the separator, and StartsWith is what a find() of the
 * anchored pattern "^# " amounts to.
 * Strings are sequences of characters; every comparison below is on single characters,
 * which gives the same answers on UTF-16 code units and on Unicode scalar values because
 * the only threshold used is U+0020.
 */
module JavaStrings {

  /** String.trim() removes every character whose code is at most U+0020 from both ends. */
  predicate IsTrimmable(c: char) {
    c <= ' '
  }

  /** True when the string holds some character that trim() would keep. */
  ghost predicate HasVisible(s: string) {
    exists k :: 0 <= k < |s| && !IsTrimmable(s[k])
  }

  /** The number of trimmable characters at the start of s (trim()'s first scan). */
  function TrimStart(s: string): (st: nat)
    ensures st <= |s|
    ensures forall k :: 0 <= k < st ==> IsTrimmable(s[k])
    ensures st < |s| ==> !IsTrimmable(s[st])
  {
    if s != [] && IsTrimmable(s[0]) then 1 + TrimStart(s[1..]) else 0
  }

  /** The end of what trim() keeps, scanning back from the end but never below st (its second scan). */
  function TrimEnd(s: string, st: nat): (len: nat)
    requires st <= |s|
    ensures st <= len <= |s|
    ensures forall k :: len <= k < |s| ==> IsTrimmable(s[k])
    ensures len > st ==> !IsTrimmable(s[len - 1])
  {
    if |s| > st && IsTrimmable(s[|s| - 1]) then TrimEnd(s[..|s| - 1], st) else |s|
  }

  /**
   * r is the infix of s starting at i, and everything before and after it is trimmable.
   */
  ghost predicate TrimmedInfix(s: string, i: int, r: string) {
    0 <= i <= |s| - |r| && r == s[i..i + |r|]
    && (forall k :: 0 <= k < i ==> IsTrimmable(s[k]))
    && (forall k :: i + |r| <= k < |s| ==> IsTrimmable(s[k]))
  }

  /**
   * String.trim(): the longest infix of s that neither starts nor ends with a character
   * at most U+0020; everything cut off on either side is such a character.
   */
  function Trim(s: string): (r: string)
    ensures r == [] || (!IsTrimmable(r[0]) && !IsTrimmable(r[|r| - 1]))
    ensures TrimmedInfix(s, TrimStart(s), r)
  {
    var st := TrimStart(s);
    s[st..TrimEnd(s, st)]
  }

  /** trim() introduces no character. */
  lemma TrimKeepsCharacters(s: string, c: char)
    requires c !in s
    ensures c !in Trim(s)
  {
  }

  /** trim() yields the empty string exactly when every character would be trimmed. */
  lemma TrimEmptyIff(s: string)
    ensures Trim(s) == [] <==> !HasVisible(s)
  {
    var r := Trim(s);
    var i := TrimStart(s);
    if r == [] {
      assert forall k :: 0 <= k < |s| ==> IsTrimmable(s[k]);
    } else {
      assert s[i] == r[0];
    }
  }

  function StartsWith(s: string, prefix: string): (b: bool)
    ensures b <==> |prefix| <= |s| && s[..|prefix|] == prefix
  {
    prefix <= s
  }

  /** String.lastIndexOf(char): the last position holding c, or -1 when c does not occur. */
  function LastIndexOf(s: string, c: char): (r: int)
    ensures -1 <= r < |s|
    ensures r >= 0 ==> s[r] == c
    ensures forall k :: r < k < |s| ==> s[k] != c
  {
    if s == [] then -1
    else if s[|s| - 1] == c then |s| - 1
    else
      var r := LastIndexOf(s[..|s| - 1], c);
      assert s == s[..|s| - 1] + [s[|s| - 1]];
      r
  }

  /** The last c in a + b is the last one in b, if any, and otherwise the last one in a. */
  lemma {:induction false} LastIndexOfConcat(a: string, b: string, c: char)
    ensures LastIndexOf(a + b, c) == if LastIndexOf(b, c) >= 0 then |a| + LastIndexOf(b, c) else LastIndexOf(a, c)
    decreases |b|
  {
    if b == [] {
      assert a + b == a;
    } else if b[|b| - 1] != c {
      var b' := b[..|b| - 1];
      LastIndexOfConcat(a, b', c);
      assert (a + b)[..|a + b| - 1] == a + b';
    }
  }

  /** String.indexOf(char), with |s| standing for -1: the first position holding c. */
  function IndexOf(s: string, c: char): (i: nat)
    ensures i <= |s|
    ensures forall k :: 0 <= k < i ==> s[k] != c
    ensures i < |s| ==> s[i] == c
  {
    if s == [] || s[0] == c then 0 else 1 + IndexOf(s[1..], c)
  }

  /**
   * The substrings of s between consecutive occurrences of sep, all of them, including
   * the empty ones at either end (what split collects before it drops trailing empties).
   */
  function Pieces(s: string, sep: char): (r: seq<string>)
    ensures |r| >= 1
    ensures forall p :: p in r ==> sep !in p
    ensures sep !in s ==> r == [s]
    decreases |s|
  {
    var i := IndexOf(s, sep);
    if i == |s| then
      assert s[..i] == s;
      [s]
    else
      [s[..i]] + Pieces(s[i + 1..], sep)
  }

  /** Joins the pieces with sep between consecutive ones; the inverse of Pieces. */
  function Join(pieces: seq<string>, sep: char): string
    requires |pieces| >= 1
  {
    if |pieces| == 1 then pieces[0] else pieces[0] + [sep] + Join(pieces[1..], sep)
  }

  /** Join of a piece followed by more pieces. */
  lemma JoinCons(head: string, rest: seq<string>, sep: char)
    requires |rest| >= 1
    ensures Join([head] + rest, sep) == head + [sep] + Join(rest, sep)
  {
    assert ([head] + rest)[1..] == rest;
  }

  lemma {:induction false} JoinPieces(s: string, sep: char)
    ensures Join(Pieces(s, sep), sep) == s
    decreases |s|
  {
    var i := IndexOf(s, sep);
    if i < |s| {
      var head, tail := s[..i], s[i + 1..];
      assert Pieces(s, sep) == [head] + Pieces(tail, sep);
      JoinCons(head, Pieces(tail, sep), sep);
      JoinPieces(tail, sep);
      assert s == head + [sep] + tail by {
        assert s == s[..i] + [s[i]] + s[i + 1..];
      }
    } else {
      assert Pieces(s, sep) == [s];
    }
  }

  /** A separator-free head followed by the separator is the first piece. */
  lemma PiecesOfConcat(a: string, sep: char, b: string)
    requires sep !in a
    ensures Pieces(a + [sep] + b, sep) == [a] + Pieces(b, sep)
  {
    var s := a + [sep] + b;
    var i := IndexOf(s, sep);
    assert s[|a|] == sep;
    assert forall k :: 0 <= k < |a| ==> s[k] == a[k];
    assert i == |a|;
    assert s[..i] == a && s[i + 1..] == b;
  }

  function DropTrailingEmpty(pieces: seq<string>): (r: seq<string>)
    ensures |r| <= |pieces| && r == pieces[..|r|]
    ensures r == [] || r[|r| - 1] != ""
    ensures forall k :: |r| <= k < |pieces| ==> pieces[k] == ""
  {
    if pieces != [] && pieces[|pieces| - 1] == "" then DropTrailingEmpty(pieces[..|pieces| - 1])
    else pieces
  }

  /**
   * String.split(String.valueOf(sep)) with limit 0: when sep does not occur the result is
   * the whole string (so "" gives [""]); otherwise the pieces with trailing empty strings removed.
   */
  function Split(s: string, sep: char): (r: seq<string>)
    ensures forall p :: p in r ==> sep !in p
    ensures |r| <= |Pieces(s, sep)| && r == Pieces(s, sep)[..|r|]
    ensures forall k :: |r| <= k < |Pieces(s, sep)| ==> Pieces(s, sep)[k] == ""
    ensures sep !in s ==> r == [s]
    ensures sep in s ==> r == [] || r[|r| - 1] != ""
  {
    if sep !in s then [s] else DropTrailingEmpty(Pieces(s, sep))
  }

  /**
   * String.replace(target, replacement): scans left to right and replaces every
   * non-overlapping occurrence of target. The target is never empty at the call sites.
   */
  function Replace(s: string, target: string, replacement: string): string
    requires target != []
    decreases |s|
  {
    if |s| < |target| then s
    else if StartsWith(s, target) then replacement + Replace(s[|target|..], target, replacement)
    else [s[0]] + Replace(s[1..], target, replacement)
  }

  /** target occurs in s at position i. */
  predicate OccursAt(target: string, s: string, i: int) {
    0 <= i <= |s| - |target| && s[i..i + |target|] == target
  }

  /** target occurs somewhere in s. */
  ghost predicate Occurs(target: string, s: string) {
    exists i :: OccursAt(target, s, i)
  }

  /** No proper prefix of p equals a suffix of p, so two occurrences of p can never overlap. */
  predicate Unbordered(p: string) {
    forall k :: 0 < k < |p| ==> p[k..] != p[..|p| - k]
  }

  /** Without an occurrence of target, replace leaves the string as it was. */
  lemma {:induction false} ReplaceAbsent(s: string, target: string, replacement: string)
    requires target != [] && !Occurs(target, s)
    ensures Replace(s, target, replacement) == s
  {
    if |s| >= |target| {
      assert !OccursAt(target, s, 0);
      NoOccurrenceInTail(s, target);
      ReplaceAbsent(s[1..], target, replacement);
    }
  }

  /**
   * A non-empty piece free of an unbordered target, followed by the target: no
   * occurrence of the target starts at the piece's first character.
   */
  lemma NoMatchAtPieceStart(piece: string, target: string, rest: string)
    requires target != [] && Unbordered(target) && !Occurs(target, piece) && piece != []
    ensures !StartsWith(piece + target + rest, target)
  {
    var s := piece + target + rest;
    if |piece| >= |target| {
      assert !OccursAt(target, piece, 0);
      assert s[..|target|] == piece[..|target|];
    } else {
      var k := |piece|;
      assert target[k..] != target[..|target| - k];
      var j :| 0 <= j < |target| - k && target[k..][j] != target[..|target| - k][j];
      assert s[k + j] == target[j];
      assert k + j < |target| && s[k + j] != target[k + j];
    }
  }

  /** A piece free of target's occurrences, in front of the string. */
  lemma NoOccurrenceInTail(piece: string, target: string)
    requires !Occurs(target, piece) && piece != []
    ensures !Occurs(target, piece[1..])
  {
    forall i | 0 <= i && i + |target| <= |piece| - 1
      ensures !OccursAt(target, piece[1..], i)
    {
      assert piece[1..][i..i + |target|] == piece[i + 1..i + 1 + |target|];
      assert !OccursAt(target, piece, i + 1);
    }
  }

  /**
   * A piece free of an unbordered target, followed by the target: the scan copies the
   * piece, then substitutes the target.
   */
  lemma {:induction false} ReplacePieceThenTarget(piece: string, target: string, rest: string, replacement: string)
    requires target != [] && Unbordered(target) && !Occurs(target, piece)
    ensures Replace(piece + target + rest, target, replacement)
         == piece + replacement + Replace(rest, target, replacement)
  {
    var s := piece + target + rest;
    if piece == [] {
      assert s == target + rest && StartsWith(s, target);
      assert s[|target|..] == rest;
    } else {
      NoMatchAtPieceStart(piece, target, rest);
      NoOccurrenceInTail(piece, target);
      assert s[1..] == piece[1..] + target + rest;
      calc {
        Replace(s, target, replacement);
        [s[0]] + Replace(s[1..], target, replacement);
        { ReplacePieceThenTarget(piece[1..], target, rest, replacement); }
        [piece[0]] + (piece[1..] + replacement + Replace(rest, target, replacement));
        { assert [piece[0]] + piece[1..] == piece; }
        piece + replacement + Replace(rest, target, replacement);
      }
    }
  }

  /** The pieces with sep written between consecutive ones (a string separator). */
  function Interleave(pieces: seq<string>, sep: string): string
    requires |pieces| >= 1
  {
    if |pieces| == 1 then pieces[0] else pieces[0] + sep + Interleave(pieces[1..], sep)
  }

  /**
   * Replacing an unbordered target in text made of target-free pieces separated by the
   * target puts the replacement exactly where each separator was and touches nothing else.
   */
  lemma {:induction false} ReplaceInterleave(pieces: seq<string>, target: string, replacement: string)
    requires |pieces| >= 1 && target != [] && Unbordered(target)
    requires forall p :: p in pieces ==> !Occurs(target, p)
    ensures Replace(Interleave(pieces, target), target, replacement) == Interleave(pieces, replacement)
  {
    if |pieces| == 1 {
      ReplaceAbsent(pieces[0], target, replacement);
    } else {
      ReplacePieceThenTarget(pieces[0], target, Interleave(pieces[1..], target), replacement);
      ReplaceInterleave(pieces[1..], target, replacement);
    }
  }
}
