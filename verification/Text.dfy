/** The string functions that the configuration parser and the domain statistics use. */
module Text {

  /** Go's `unicode.IsSpace`. */
  predicate IsSpace(c: char) {
    || c == ' ' || '\t' <= c <= '\r' || c == '\U{85}' || c == '\U{A0}' || c == '\U{1680}'
    || '\U{2000}' <= c <= '\U{200A}' || c == '\U{2028}' || c == '\U{2029}' || c == '\U{202F}' || c == '\U{205F}'
    || c == '\U{3000}'
  }

  /** The twenty-five characters that count as white space. */
  lemma SpacesAre(c: char)
    ensures IsSpace(c) <==> c as int in {
              9, 10, 11, 12, 13, 32, 133, 160, 5760, 8192, 8193, 8194, 8195, 8196, 8197, 8198, 8199, 8200, 8201, 8202,
              8232, 8233, 8239, 8287, 12288}
  {
  }

  function TrimLeft(s: string): (r: string)
    ensures |r| <= |s| && s[|s| - |r|..] == r
    ensures forall i | 0 <= i < |s| - |r| :: IsSpace(s[i])
    ensures r != "" ==> !IsSpace(r[0])
  {
    if s != "" && IsSpace(s[0]) then TrimLeft(s[1..]) else s
  }

  function TrimRight(s: string): (r: string)
    ensures |r| <= |s| && s[..|r|] == r
    ensures forall i | |r| <= i < |s| :: IsSpace(s[i])
    ensures r != "" ==> !IsSpace(r[|r| - 1])
  {
    if s != "" && IsSpace(s[|s| - 1]) then TrimRight(s[..|s| - 1]) else s
  }

  function TrimSpace(s: string): (r: string)
    ensures Trimmed(r)
  {
    TrimRight(TrimLeft(s))
  }

  predicate IsBlank(s: string) {
    forall i | 0 <= i < |s| :: IsSpace(s[i])
  }

  lemma {:induction false} TrimLeftKeeps(s: string, c: char)
    requires !IsSpace(c)
    ensures c in TrimLeft(s) <==> c in s
  {
    hide IsSpace;
    if s != "" && IsSpace(s[0]) {
      var rest := s[1..];
      assert s == [s[0]] + rest && c != s[0];
      TrimLeftKeeps(rest, c);
      assert TrimLeft(s) == TrimLeft(rest);
      hide TrimLeft;
    }
  }

  lemma {:induction false} TrimRightKeeps(s: string, c: char)
    requires !IsSpace(c)
    ensures c in TrimRight(s) <==> c in s
  {
    hide IsSpace;
    if s != "" && IsSpace(s[|s| - 1]) {
      var rest := s[..|s| - 1];
      assert s == rest + [s[|s| - 1]] && c != s[|s| - 1];
      TrimRightKeeps(rest, c);
      assert TrimRight(s) == TrimRight(rest);
    }
  }

  /** Trimming keeps every character that is not white space, and leaves nothing exactly of a blank string. */
  lemma TrimKeeps(s: string, c: char)
    requires !IsSpace(c)
    ensures c in TrimSpace(s) <==> c in s
    ensures TrimSpace(s) == "" <==> IsBlank(s)
  {
    TrimLeftKeeps(s, c);
    TrimRightKeeps(TrimLeft(s), c);
    if i :| 0 <= i < |s| && !IsSpace(s[i]) {
      TrimLeftKeeps(s, s[i]);
      TrimRightKeeps(TrimLeft(s), s[i]);
    } else {
      assert TrimLeft(s) == "" by {
        assert s[|s| - |TrimLeft(s)|..] == TrimLeft(s);
      }
    }
  }

  /** No white space at either end. */
  predicate Trimmed(s: string) {
    s == "" || (!IsSpace(s[0]) && !IsSpace(s[|s| - 1]))
  }

  lemma TrimLeftStep(s: string)
    ensures TrimLeft(s) == if s != "" && IsSpace(s[0]) then TrimLeft(s[1..]) else s
  {
  }

  lemma BlankTail(a: string)
    requires IsBlank(a) && a != ""
    ensures IsSpace(a[0]) && IsBlank(a[1..])
  {
  }

  lemma ConsConcat(a: string, t: string)
    requires a != ""
    ensures a + t != "" && (a + t)[1..] == a[1..] + t && (a + t)[0] == a[0]
  {
  }

  lemma {:induction false} TrimLeftIs(a: string, t: string)
    requires IsBlank(a) && (t == "" || !IsSpace(t[0]))
    ensures TrimLeft(a + t) == t
  {
    if a == "" {
      assert a + t == t;
      TrimLeftStep(t);
    } else {
      hide *;
      BlankTail(a);
      TrimLeftIs(a[1..], t);
      ConsConcat(a, t);
      TrimLeftStep(a + t);
    }
  }

  lemma {:induction false} TrimRightIs(t: string, b: string)
    requires IsBlank(b) && (t == "" || !IsSpace(t[|t| - 1]))
    ensures TrimRight(t + b) == t
  {
    hide IsSpace;
    if b == "" {
      assert t + b == t;
    } else {
      TrimRightIs(t, b[..|b| - 1]);
      assert (t + b)[..|t + b| - 1] == t + b[..|b| - 1];
    }
  }

  /** Trimming takes away exactly the white space around. */
  lemma TrimAround(a: string, s: string, b: string)
    requires IsBlank(a) && Trimmed(s) && IsBlank(b)
    ensures TrimSpace(a + s + b) == s
  {
    hide IsSpace, TrimLeft, TrimRight;
    if s == "" {
      BlankConcat(a, b);
      assert a + s + b == a + b;
      BlankTrimmed(a + b);
    } else {
      assert a + s + b == a + (s + b);
      TrimLeftIs(a, s + b);
      TrimRightIs(s, b);
    }
  }

  lemma BlankConcat(a: string, b: string)
    requires IsBlank(a) && IsBlank(b)
    ensures IsBlank(a + b)
  {
    hide IsSpace;
  }

  lemma BlankTrimmed(s: string)
    requires IsBlank(s)
    ensures TrimSpace(s) == ""
  {
    TrimKeeps(s, 'a');
  }

  function LowerChar(c: char): char {
    if 'A' <= c <= 'Z' then c - 'A' + 'a' else c
  }

  function Lower(s: string): string {
    if s == "" then "" else [LowerChar(s[0])] + Lower(s[1..])
  }

  predicate IsLower(s: string) {
    forall i | 0 <= i < |s| :: !('A' <= s[i] <= 'Z')
  }

  lemma {:induction false} LowerOfLower(s: string)
    requires IsLower(s)
    ensures Lower(s) == s
  {
    if s != "" {
      LowerOfLower(s[1..]);
    }
  }

  /** The pieces between the separators, always at least one. */
  function Split(s: string, sep: char): (r: seq<string>)
    ensures r != []
  {
    if s == "" then [""]
    else
      var r := Split(s[1..], sep);
      if s[0] == sep then [""] + r else [[s[0]] + r[0]] + r[1..]
  }

  function Join(parts: seq<string>, sep: char): string {
    if parts == [] then "" else if |parts| == 1 then parts[0] else parts[0] + [sep] + Join(parts[1..], sep)
  }

  lemma {:induction false} SplitPrefix(p: string, rest: string, sep: char)
    requires sep !in p
    ensures Split(p + [sep] + rest, sep) == [p] + Split(rest, sep)
    ensures Split(p, sep) == [p]
  {
    var s := p + [sep] + rest;
    if p == "" {
      assert s[1..] == rest;
    } else {
      assert s[1..] == p[1..] + [sep] + rest;
      SplitPrefix(p[1..], rest, sep);
      assert p == [p[0]] + p[1..];
    }
  }

  /** Splitting undoes joining when no piece contains the separator. */
  lemma {:induction false} SplitJoin(parts: seq<string>, sep: char)
    requires parts != [] && forall i | 0 <= i < |parts| :: sep !in parts[i]
    ensures Split(Join(parts, sep), sep) == parts
  {
    SplitPrefix(parts[0], Join(parts[1..], sep), sep);
    if |parts| > 1 {
      SplitJoin(parts[1..], sep);
      assert parts == [parts[0]] + parts[1..];
    }
  }

  /** Where `c` first occurs, or the length of `s`. */
  function IndexOf(s: string, c: char): (i: nat)
    ensures i <= |s| && c !in s[..i]
    ensures i < |s| ==> s[i] == c
    ensures i == |s| <==> c !in s
  {
    if s == "" || s[0] == c then 0
    else
      assert s == [s[0]] + s[1..];
      var i := IndexOf(s[1..], c);
      assert s[..i + 1] == [s[0]] + s[1..][..i];
      i + 1
  }

  lemma {:induction false} IndexOfPrefix(p: string, rest: string, c: char)
    requires c !in p
    ensures IndexOf(p + [c] + rest, c) == |p|
  {
    if p != "" {
      assert (p + [c] + rest)[1..] == p[1..] + [c] + rest;
      IndexOfPrefix(p[1..], rest, c);
    }
  }

  lemma {:induction false} LowerConcat(a: string, b: string)
    ensures Lower(a + b) == Lower(a) + Lower(b)
  {
    if a == "" {
      assert a + b == b;
    } else {
      assert (a + b)[1..] == a[1..] + b;
      LowerConcat(a[1..], b);
    }
  }

  lemma {:induction false} LowerIsLower(s: string)
    ensures IsLower(Lower(s)) && |Lower(s)| == |s|
    ensures forall i | 0 <= i < |s| :: Lower(s)[i] == LowerChar(s[i])
  {
    if s != "" {
      LowerIsLower(s[1..]);
    }
  }

  /** The pieces are free of the separator, and have no other characters than what is split. */
  lemma {:induction false} SplitPieces(s: string, sep: char)
    ensures forall i | 0 <= i < |Split(s, sep)| :: sep !in Split(s, sep)[i]
    ensures IsLower(s) ==> forall i | 0 <= i < |Split(s, sep)| :: IsLower(Split(s, sep)[i])
  {
    if s != "" {
      SplitPieces(s[1..], sep);
    }
  }

  /** A separator at the end adds an empty piece. */
  lemma SplitEnd(s: string, sep: char)
    ensures Split(s + [sep], sep) == Split(s, sep) + [""]
  {
    SplitConcat(s, "", sep);
    assert s + [sep] + "" == s + [sep];
  }

  /** Without one the last piece is not empty. */
  lemma {:induction false} SplitLast(s: string, sep: char)
    requires s != "" && s[|s| - 1] != sep
    ensures Split(s, sep)[|Split(s, sep)| - 1] != ""
  {
    SplitHead(s, sep);
    if |s| > 1 {
      hide Split;
      SplitLast(s[1..], sep);
      PrependLast(s[0], Split(s[1..], sep), sep);
    }
  }

  lemma PrependLast(c: char, r: seq<string>, sep: char)
    requires r != [] && r[|r| - 1] != ""
    ensures Prepend(c, r, sep)[|Prepend(c, r, sep)| - 1] != ""
  {
  }

  /** Joining undoes splitting. */
  lemma {:induction false} JoinSplit(s: string, sep: char)
    ensures Join(Split(s, sep), sep) == s
  {
    if s != "" {
      var r := Split(s[1..], sep);
      JoinSplit(s[1..], sep);
      assert s == [s[0]] + s[1..];
      if s[0] == sep {
        assert ([""] + r)[1..] == r;
      } else {
        assert ([[s[0]] + r[0]] + r[1..])[1..] == r[1..];
      }
    }
  }

  lemma {:induction false} JoinConcat(p: seq<string>, q: seq<string>, sep: char)
    requires p != [] && q != []
    ensures Join(p + q, sep) == Join(p, sep) + [sep] + Join(q, sep)
  {
    assert (p + q)[1..] == p[1..] + q;
    if |p| > 1 {
      JoinConcat(p[1..], q, sep);
    } else {
      assert p[1..] + q == q;
    }
  }

  /** The pieces on both sides of a separator. */
  lemma {:induction false} SplitConcat(a: string, b: string, sep: char)
    ensures Split(a + [sep] + b, sep) == Split(a, sep) + Split(b, sep)
  {
    var s := a + [sep] + b;
    if a == "" {
      assert s[1..] == b;
    } else {
      assert s[1..] == a[1..] + [sep] + b && s[0] == a[0];
      SplitConcat(a[1..], b, sep);
      SplitHead(s, sep);
      SplitHead(a, sep);
      hide Split;
      PrependConcat(a[0], Split(a[1..], sep), Split(b, sep), sep);
    }
  }

  /** A character in front of what has been split. */
  function Prepend(c: char, r: seq<string>, sep: char): seq<string>
    requires r != []
  {
    if c == sep then [""] + r else [[c] + r[0]] + r[1..]
  }

  lemma SplitHead(s: string, sep: char)
    requires s != ""
    ensures Split(s, sep) == Prepend(s[0], Split(s[1..], sep), sep)
  {
  }

  lemma PrependConcat(c: char, r: seq<string>, q: seq<string>, sep: char)
    requires r != []
    ensures Prepend(c, r + q, sep) == Prepend(c, r, sep) + q
  {
  }

  // ---------- numbers ----------

  function Digit(d: nat): char
    requires d < 10
  {
    '0' + d as char
  }

  predicate IsDigit(c: char) {
    '0' <= c <= '9'
  }

  /** A number in decimal. */
  function Decimal(n: nat): string {
    if n < 10 then [Digit(n)] else Decimal(n / 10) + [Digit(n % 10)]
  }

  predicate AllDigits(s: string) {
    forall i | 0 <= i < |s| :: IsDigit(s[i])
  }

  /** The number that a numeral stands for. */
  function Numeral(s: string): nat
    requires AllDigits(s)
  {
    if s == "" then 0 else Numeral(s[..|s| - 1]) * 10 + (s[|s| - 1] as int - '0' as int)
  }

  /** A number written in decimal is read back. */
  lemma {:induction false} NumeralOfDecimal(n: nat)
    ensures AllDigits(Decimal(n)) && Decimal(n) != "" && Numeral(Decimal(n)) == n
  {
    if n >= 10 {
      NumeralOfDecimal(n / 10);
      var s := Decimal(n);
      assert s[..|s| - 1] == Decimal(n / 10) && s[|s| - 1] == Digit(n % 10);
    } else {
      assert Decimal(n)[..0] == "";
    }
  }
}
