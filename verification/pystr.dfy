/**
 * The Python string built-ins that the calculator leans on, modelled by their
 * observable effect: `s.split(sep)` with an explicit one-character separator,
 * `sep.join(parts)`, `str(n)` of a non-negative int, and
 * `s.translate(str.maketrans(from, to))`.
 */
module PyStr {

  // ---------------------------------------------------------------------------
  // sep.join(parts) and s.split(sep)
  // ---------------------------------------------------------------------------

  /**
   * `sep.join(parts)`: the parts in order, one separator between neighbours,
   * so the result starts with the first part.
   */
  function Join(parts: seq<string>, sep: char): (r: string)
    ensures |parts| >= 1 ==> parts[0] <= r
  {
    if |parts| == 0 then []
    else if |parts| == 1 then parts[0]
    else parts[0] + [sep] + Join(parts[1..], sep)
  }

  /** Every character of a join is the separator or a character of one of the parts. */
  lemma {:induction false} JoinChars(parts: seq<string>, sep: char, c: char)
    requires c in Join(parts, sep)
    ensures c == sep || exists i :: 0 <= i < |parts| && c in parts[i]
    decreases |parts|
  {
    if |parts| > 1 {
      var tail := Join(parts[1..], sep);
      if c !in parts[0] && c != sep {
        assert c in tail;
        JoinChars(parts[1..], sep, c);
        var i :| 0 <= i < |parts[1..]| && c in parts[1..][i];
        assert c in parts[i + 1];
      }
    }
  }

  /**
   * `s.split(sep)` for an explicit separator: the pieces between separators,
   * empty pieces included, so there is always at least one, and none of them
   * holds the separator.
   */
  function Split(s: string, sep: char): (parts: seq<string>)
    ensures |parts| >= 1
    ensures forall i :: 0 <= i < |parts| ==> sep !in parts[i]
    decreases |s|
  {
    if s == [] then [[]]
    else
      var rest := Split(s[1..], sep);
      if s[0] == sep then [[]] + rest
      else [[s[0]] + rest[0]] + rest[1..]
  }

  /** Joining the pieces of a split gives the string back. */
  lemma {:induction false} JoinSplit(s: string, sep: char)
    ensures Join(Split(s, sep), sep) == s
    decreases |s|
  {
    if s != [] {
      JoinSplit(s[1..], sep);
      var rest := Split(s[1..], sep);
      if s[0] == sep {
        assert ([[]] + rest)[1..] == rest;
      } else {
        var first := [s[0]] + rest[0];
        assert |rest| > 1 ==> Join(rest, sep) == rest[0] + [sep] + Join(rest[1..], sep);
        assert ([first] + rest[1..])[1..] == rest[1..];
      }
    }
  }

  /** A piece without the separator is split off whole in front of the rest. */
  lemma {:induction false} SplitPiece(piece: string, rest: string, sep: char)
    requires sep !in piece
    ensures Split(piece + [sep] + rest, sep) == [piece] + Split(rest, sep)
    decreases |piece|
  {
    if piece == [] {
      assert piece + [sep] + rest == [sep] + rest;
      assert ([sep] + rest)[1..] == rest;
    } else {
      var s := piece + [sep] + rest;
      assert s[1..] == piece[1..] + [sep] + rest;
      SplitPiece(piece[1..], rest, sep);
      assert [piece[0]] + piece[1..] == piece;
    }
  }

  /** A string without the separator splits into itself alone. */
  lemma {:induction false} SplitNoSep(piece: string, sep: char)
    requires sep !in piece
    ensures Split(piece, sep) == [piece]
    decreases |piece|
  {
    if piece != [] {
      SplitNoSep(piece[1..], sep);
      assert [piece[0]] + piece[1..] == piece;
    }
  }

  /** Splitting undoes joining, when no part holds the separator. */
  lemma {:induction false} SplitJoin(parts: seq<string>, sep: char)
    requires |parts| >= 1
    requires forall i :: 0 <= i < |parts| ==> sep !in parts[i]
    ensures Split(Join(parts, sep), sep) == parts
    decreases |parts|
  {
    if |parts| == 1 {
      SplitNoSep(parts[0], sep);
    } else {
      SplitJoin(parts[1..], sep);
      SplitPiece(parts[0], Join(parts[1..], sep), sep);
      assert [parts[0]] + parts[1..] == parts;
    }
  }

  // ---------------------------------------------------------------------------
  // str(n) for a non-negative int
  // ---------------------------------------------------------------------------

  predicate IsDigit(c: char)
  {
    '0' <= c <= '9'
  }

  predicate AllDigits(s: string)
  {
    forall i :: 0 <= i < |s| ==> IsDigit(s[i])
  }

  function DigitChar(d: nat): (c: char)
    requires d < 10
    ensures IsDigit(c)
  {
    (('0' as int) + d) as char
  }

  function DigitValue(c: char): nat
    requires IsDigit(c)
  {
    (c as int) - ('0' as int)
  }

  /** The number a string of decimal digits denotes, most significant digit first. */
  function DecimalValue(s: string): nat
    requires AllDigits(s)
    decreases |s|
  {
    if s == [] then 0
    else 10 * DecimalValue(s[..|s| - 1]) + DigitValue(s[|s| - 1])
  }

  /**
   * `str(n)` for `n >= 0`: a non-empty numeral of decimal digits without a
   * leading zero (the numeral of zero is "0" itself) that denotes `n`.
   */
  function Str(n: nat): (r: string)
    ensures |r| >= 1
    ensures AllDigits(r)
    ensures r[0] == '0' ==> n == 0 && r == "0"
    ensures DecimalValue(r) == n
    decreases n
  {
    if n < 10 then [DigitChar(n)]
    else
      var prefix := Str(n / 10);
      var r := prefix + [DigitChar(n % 10)];
      assert r[..|r| - 1] == prefix;
      r
  }

  // ---------------------------------------------------------------------------
  // s.translate(str.maketrans(from, to))
  // ---------------------------------------------------------------------------

  /** No later position of `s` holds the character at `i`. */
  predicate IsLastOccurrence(s: string, i: nat)
    requires i < |s|
  {
    forall j :: i < j < |s| ==> s[j] != s[i]
  }

  /**
   * `str.maketrans(from, to)`: maps the characters of `from` and nothing else;
   * `from[i]` goes to `to[i]`, and when a character occurs twice in `from`
   * its last occurrence wins.
   */
  function MakeTrans(from: string, to: string): (table: map<char, char>)
    requires |from| == |to|
    ensures forall c :: c in table <==> c in from
    ensures forall i :: 0 <= i < |from| && IsLastOccurrence(from, i) ==> table[from[i]] == to[i]
    decreases |from|
  {
    if from == [] then map[]
    else
      var n := |from| - 1;
      var table := MakeTrans(from[..n], to[..n]);
      MakeTransLast(from, to, from[..n], to[..n], table);
      table[from[n] := to[n]]
  }

  /** The step of `MakeTrans`: the pair added last overrides the earlier ones. */
  lemma {:induction false} MakeTransLast(from: string, to: string, prefix: string, prefixTo: string, table: map<char, char>)
    requires |from| == |to| > 0
    requires prefix == from[..|from| - 1] && prefixTo == to[..|to| - 1]
    requires forall x :: x in table <==> x in prefix
    requires forall i :: 0 <= i < |prefix| && IsLastOccurrence(prefix, i) ==> table[prefix[i]] == prefixTo[i]
    ensures forall x :: x in table[from[|from| - 1] := to[|from| - 1]] <==> x in from
    ensures forall i :: 0 <= i < |from| && IsLastOccurrence(from, i) ==>
      table[from[|from| - 1] := to[|from| - 1]][from[i]] == to[i]
  {
  }

  /**
   * `s.translate(table)`: every character the table maps is replaced by its
   * image and every other character is kept, so the length is kept.
   */
  function Translate(s: string, table: map<char, char>): (r: string)
    ensures |r| == |s|
  {
    seq(|s|, i requires 0 <= i < |s| => if s[i] in table then table[s[i]] else s[i])
  }
}
