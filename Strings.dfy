/** The JavaScript string operations the UI code relies on: `split(" ")`,
    `trim()`, `toLowerCase()`, `includes` and the digit reading of
    `parseInt` / `Number`. */
module Strings {
  import opened Seqs

  /** `t` holds no space character. */
  predicate NoSpace(t: string)
  {
    forall k :: 0 <= k < |t| ==> t[k] != ' '
  }

  /** `s.indexOf(" ")`: the index of the first space, or -1. */
  function FirstSpace(s: string): (i: int)
    ensures -1 <= i < |s|
    ensures i == -1 <==> NoSpace(s)
    ensures 0 <= i ==> s[i] == ' ' && NoSpace(s[..i])
  {
    if s == [] then -1
    else if s[0] == ' ' then 0
    else
      var k := FirstSpace(s[1..]);
      if k == -1 then -1
      else
        assert forall j :: 0 <= j < k ==> s[1..][..k][j] == s[j + 1];
        k + 1
  }

  /** `s.split(" ")`: the pieces between single spaces (empty pieces kept). */
  function Split(s: string): (parts: seq<string>)
    ensures |parts| >= 1
    decreases |s|
  {
    var i := FirstSpace(s);
    if i == -1 then [s] else [s[..i]] + Split(s[i + 1..])
  }

  /** No piece holds a space. */
  lemma {:induction false} SplitPiecesHaveNoSpace(s: string)
    ensures forall k :: 0 <= k < |Split(s)| ==> NoSpace(Split(s)[k])
    decreases |s|
  {
    var i := FirstSpace(s);
    if i != -1 {
      SplitPiecesHaveNoSpace(s[i + 1..]);
      var rest := Split(s[i + 1..]);
      var parts := Split(s);
      assert parts == [s[..i]] + rest;
      forall k | 0 <= k < |parts| ensures NoSpace(parts[k]) {
        if k > 0 {
          assert parts[k] == rest[k - 1];
        }
      }
    }
  }

  /** `parts.join(" ")`. */
  function Join(parts: seq<string>): string
    requires |parts| >= 1
  {
    if |parts| == 1 then parts[0] else parts[0] + " " + Join(parts[1..])
  }

  /** Joining a piece in front of at least one more puts one space between. */
  lemma JoinCons(head: string, rest: seq<string>)
    requires |rest| >= 1
    ensures Join([head] + rest) == head + " " + Join(rest)
  {
    assert ([head] + rest)[1..] == rest;
  }

  /** A string is the text before a space, the space, and the text after. */
  lemma AroundSpace(s: string, i: nat)
    requires i < |s| && s[i] == ' '
    ensures s == s[..i] + " " + s[i + 1..]
  {
  }

  /** Splitting loses nothing: joining the pieces gives the string back. */
  lemma {:induction false} JoinSplit(s: string)
    ensures Join(Split(s)) == s
    decreases |s|
  {
    var i := FirstSpace(s);
    if i != -1 {
      var head, tail := s[..i], s[i + 1..];
      JoinSplit(tail);
      JoinCons(head, Split(tail));
      AroundSpace(s, i);
    }
  }

  /** A space-free piece followed by a space splits off first. */
  lemma SplitAtFirstSpace(head: string, t: string)
    requires NoSpace(head)
    ensures Split(head + " " + t) == [head] + Split(t)
  {
    var j := head + " " + t;
    assert j[..|head|] == head && j[|head|] == ' ';
    assert forall k :: 0 <= k < |head| ==> j[k] == head[k];
    assert FirstSpace(j) == |head|;
    assert j[|head| + 1..] == t;
  }

  /** Joining space-free pieces and splitting again gives the pieces back. */
  lemma {:induction false} SplitJoin(parts: seq<string>)
    requires |parts| >= 1
    requires forall i :: 0 <= i < |parts| ==> NoSpace(parts[i])
    ensures Split(Join(parts)) == parts
  {
    if |parts| > 1 {
      var head, rest := parts[0], parts[1..];
      assert parts == [head] + rest;
      JoinCons(head, rest);
      SplitAtFirstSpace(head, Join(rest));
      SplitJoin(rest);
    }
  }

  /** The last piece of `s.split(" ")`. */
  function LastPiece(s: string): string
  {
    var parts := Split(s);
    parts[|parts| - 1]
  }

  /** Past the first space, the last piece is that of the rest. */
  lemma LastPieceAfterSpace(s: string, i: int)
    requires i == FirstSpace(s) && i != -1
    ensures LastPiece(s) == LastPiece(s[i + 1..])
  {
    var rest := Split(s[i + 1..]);
    assert Split(s) == [s[..i]] + rest;
    assert ([s[..i]] + rest)[|rest|] == rest[|rest| - 1];
  }

  /** The last piece of `s.split(" ")` is the longest space-free suffix of
      `s`: it holds no space and is either all of `s` or preceded by a space. */
  lemma {:induction false} LastPieceIsSuffix(s: string)
    ensures NoSpace(LastPiece(s))
    ensures |LastPiece(s)| <= |s| && s[|s| - |LastPiece(s)|..] == LastPiece(s)
    ensures |LastPiece(s)| < |s| ==> s[|s| - |LastPiece(s)| - 1] == ' '
    decreases |s|
  {
    SplitPiecesHaveNoSpace(s);
    var i := FirstSpace(s);
    if i != -1 {
      var t := s[i + 1..];
      LastPieceIsSuffix(t);
      LastPieceAfterSpace(s, i);
      var m := |LastPiece(t)|;
      SuffixOfSuffix(s, i + 1, |t| - m);
      if m < |t| {
        assert s[|s| - m - 1] == t[|t| - m - 1];
      } else {
        assert s[|s| - m - 1] == s[i];
      }
    }
  }

  lemma SuffixOfSuffix(s: string, j: nat, k: nat)
    requires j + k <= |s|
    ensures s[j..][k..] == s[j + k..]
  {
  }

  /** The characters `String.prototype.trim` removes: the ECMAScript
      WhiteSpace and LineTerminator code points. */
  predicate IsJsWhitespace(c: char)
  {
    c == '\t' || c == '\n' || c == '\U{B}' || c == '\U{C}' || c == '\r' ||
    c == ' ' || c == '\U{A0}' || c == '\U{1680}' || ('\U{2000}' <= c <= '\U{200A}') ||
    c == '\U{2028}' || c == '\U{2029}' || c == '\U{202F}' || c == '\U{205F}' ||
    c == '\U{3000}' || c == '\U{FEFF}'
  }

  /** Drops leading whitespace: the result is a suffix of `s` that does not
      start with whitespace, and everything dropped is whitespace. */
  function TrimStart(s: string): (r: string)
    ensures |r| <= |s| && r == s[|s| - |r|..]
    ensures r == [] || !IsJsWhitespace(r[0])
    ensures forall k :: 0 <= k < |s| - |r| ==> IsJsWhitespace(s[k])
  {
    if s != [] && IsJsWhitespace(s[0]) then TrimStart(s[1..]) else s
  }

  /** Drops trailing whitespace: the result is a prefix of `s` that does not
      end with whitespace, and everything dropped is whitespace. */
  function TrimEnd(s: string): (r: string)
    ensures |r| <= |s| && r == s[..|r|]
    ensures r == [] || !IsJsWhitespace(r[|r| - 1])
    ensures forall k :: |r| <= k < |s| ==> IsJsWhitespace(s[k])
  {
    if s != [] && IsJsWhitespace(s[|s| - 1]) then TrimEnd(s[..|s| - 1]) else s
  }

  /** `String.prototype.trim`. */
  function Trim(s: string): (r: string)
    ensures |r| <= |s|
    ensures r == [] || (!IsJsWhitespace(r[0]) && !IsJsWhitespace(r[|r| - 1]))
  {
    TrimEnd(TrimStart(s))
  }

  /** `trim` removes whitespace only: the result occurs in `s` with nothing
      but whitespace before and after it. */
  lemma TrimRemovesOnlyWhitespace(s: string)
    ensures exists i ::
      OccursAt(s, Trim(s), i) && AllWhitespace(s[..i]) && AllWhitespace(s[i + |Trim(s)|..])
  {
    var t := TrimStart(s);
    TrimPlacement(s, t, TrimEnd(t));
  }

  lemma TrimPlacement(s: string, t: string, r: string)
    requires |t| <= |s| && t == s[|s| - |t|..]
    requires forall k :: 0 <= k < |s| - |t| ==> IsJsWhitespace(s[k])
    requires |r| <= |t| && r == t[..|r|]
    requires forall k :: |r| <= k < |t| ==> IsJsWhitespace(t[k])
    ensures OccursAt(s, r, |s| - |t|)
    ensures AllWhitespace(s[..|s| - |t|]) && AllWhitespace(s[|s| - |t| + |r|..])
  {
    var i := |s| - |t|;
    assert s[i..i + |r|] == r by {
      forall k | 0 <= k < |r| ensures s[i..i + |r|][k] == r[k] {
        assert r[k] == t[k] == s[i + k];
      }
    }
    var w := s[i + |r|..];
    forall k | 0 <= k < |w| ensures IsJsWhitespace(w[k]) {
      assert w[k] == t[|r| + k];
    }
  }

  predicate AllWhitespace(s: string)
  {
    forall k :: 0 <= k < |s| ==> IsJsWhitespace(s[k])
  }

  /** `toLowerCase` on one character (ASCII letters only). */
  function LowerChar(c: char): char
  {
    if 'A' <= c <= 'Z' then (c as int + 32) as char else c
  }

  function Lower(s: string): (r: string)
    ensures |r| == |s| && forall i :: 0 <= i < |s| ==> r[i] == LowerChar(s[i])
  {
    seq(|s|, i requires 0 <= i < |s| => LowerChar(s[i]))
  }

  /** `needle` occurs in `haystack` starting at index `i`. */
  predicate OccursAt(haystack: string, needle: string, i: int)
  {
    0 <= i && i + |needle| <= |haystack| && haystack[i..i + |needle|] == needle
  }

  /** `haystack.includes(needle)`, scanning start positions left to right. */
  predicate Contains(haystack: string, needle: string)
  {
    (|needle| <= |haystack| && haystack[..|needle|] == needle) ||
    (haystack != [] && Contains(haystack[1..], needle))
  }

  /** `Contains` holds exactly when `needle` occurs at some position. */
  lemma {:induction false} ContainsIff(haystack: string, needle: string)
    ensures Contains(haystack, needle) <==> exists i :: OccursAt(haystack, needle, i)
  {
    var n := |needle|;
    if n <= |haystack| && haystack[..n] == needle {
      assert OccursAt(haystack, needle, 0);
    } else if haystack != [] {
      var t := haystack[1..];
      ContainsIff(t, needle);
      assert !OccursAt(haystack, needle, 0) by {
        if n <= |haystack| {
          assert haystack[0..0 + n] == haystack[..n];
        }
      }
      forall i | OccursAt(haystack, needle, i) && i > 0 ensures OccursAt(t, needle, i - 1) {
        assert haystack[i..i + n] == t[i - 1..i - 1 + n];
      }
      forall i | OccursAt(t, needle, i) ensures OccursAt(haystack, needle, i + 1) {
        forall k | 0 <= k < n ensures haystack[i + 1..i + 1 + n][k] == needle[k] {
          assert haystack[i + 1 + k] == t[i + k];
        }
      }
    }
  }

  /** Plain lexicographic order on character codes (the model of
      `localeCompare(...) <= 0`). */
  predicate LexLe(a: string, b: string)
  {
    a == [] || (b != [] && (a[0] < b[0] || (a[0] == b[0] && LexLe(a[1..], b[1..]))))
  }

  lemma {:induction false} LexLeTotal(a: string, b: string)
    ensures LexLe(a, b) || LexLe(b, a)
  {
    if a != [] && b != [] && a[0] == b[0] {
      LexLeTotal(a[1..], b[1..]);
    }
  }

  lemma {:induction false} LexLeTransitive(a: string, b: string, c: string)
    requires LexLe(a, b) && LexLe(b, c)
    ensures LexLe(a, c)
  {
    if a != [] && b != [] && c != [] && a[0] == b[0] && b[0] == c[0] {
      LexLeTransitive(a[1..], b[1..], c[1..]);
    }
  }

  predicate IsDigit(c: char)
  {
    '0' <= c <= '9'
  }

  /** Length of the run of decimal digits at the start of `s`. */
  function LeadingDigits(s: string): (n: nat)
    ensures n <= |s|
    ensures forall k :: 0 <= k < n ==> IsDigit(s[k])
    ensures n < |s| ==> !IsDigit(s[n])
  {
    if s != [] && IsDigit(s[0]) then 1 + LeadingDigits(s[1..]) else 0
  }

  /** Value of a string of decimal digits, most significant first. */
  function DigitsValue(d: string): nat
    requires forall k :: 0 <= k < |d| ==> IsDigit(d[k])
  {
    if d == [] then 0
    else
      assert IsDigit(d[|d| - 1]);
      DigitsValue(d[..|d| - 1]) * 10 + (d[|d| - 1] as int - '0' as int)
  }

  /** The number a year string denotes: the value of its leading digits. */
  function YearValue(s: string): nat
  {
    DigitsValue(s[..LeadingDigits(s)])
  }

  /** The decimal spelling of `n`, as `String(n)` writes it. */
  function Decimal(n: nat): (d: string)
    ensures |d| >= 1 && forall k :: 0 <= k < |d| ==> IsDigit(d[k])
  {
    var last := ('0' as int + n % 10) as char;
    if n < 10 then [last] else Decimal(n / 10) + [last]
  }

  /** Reading back a decimal spelling gives the number: a year written by
      `String(n)` is ranked as `n`. */
  lemma {:induction false} YearValueDecimal(n: nat)
    ensures YearValue(Decimal(n)) == n
  {
    var d := Decimal(n);
    var last := ('0' as int + n % 10) as char;
    assert last as int - '0' as int == n % 10;
    assert LeadingDigits(d) == |d|;
    assert d[..LeadingDigits(d)] == d;
    if n < 10 {
      assert d == [last] && d[..|d| - 1] == [];
      assert DigitsValue(d) == DigitsValue([]) * 10 + n % 10;
    } else {
      var p := Decimal(n / 10);
      YearValueDecimal(n / 10);
      assert LeadingDigits(p) == |p|;
      assert p[..LeadingDigits(p)] == p;
      assert d == p + [last] && d[..|d| - 1] == p;
      assert DigitsValue(d) == DigitsValue(p) * 10 + n % 10;
    }
  }
}
