/**
  The java.lang.String operations the server relies on, stated over Dafny
  strings: strip(), split(" "), split(": ", 2), Integer.toString for a
  non-negative int, getBytes().length in UTF-8, and text made of lines each
  ended by CRLF.
 */
module Text {
  import opened Wrappers

  const CRLF: string := "\r\n"

  // ---------------------------------------------------------------------------
  // String.strip()
  // ---------------------------------------------------------------------------

  /** Character.isWhitespace: the characters String.strip() removes. */
  predicate IsWhitespace(c: char)
  {
    c == ' ' || '\t' <= c <= '\r' || '\U{1C}' <= c <= '\U{1F}' || c == '\U{1680}'
    || '\U{2000}' <= c <= '\U{2006}' || '\U{2008}' <= c <= '\U{200A}'
    || c == '\U{2028}' || c == '\U{2029}' || c == '\U{205F}' || c == '\U{3000}'
  }

  /** The suffix of s that starts at its first non-whitespace character. */
  function StripLeading(s: string): (r: string)
    ensures |r| <= |s| && r == s[|s| - |r|..]
    ensures forall i :: 0 <= i < |s| - |r| ==> IsWhitespace(s[i])
    ensures r == "" || !IsWhitespace(r[0])
  {
    if s != "" && IsWhitespace(s[0]) then StripLeading(s[1..]) else s
  }

  /** The prefix of s that ends at its last non-whitespace character. */
  function StripTrailing(s: string): (r: string)
    ensures |r| <= |s| && r == s[..|r|]
    ensures forall i :: |r| <= i < |s| ==> IsWhitespace(s[i])
    ensures r == "" || !IsWhitespace(r[|r| - 1])
  {
    if s != "" && IsWhitespace(s[|s| - 1]) then StripTrailing(s[..|s| - 1]) else s
  }

  /** String.strip(): whitespace removed at both ends, the middle kept as it is. */
  function Strip(s: string): (r: string)
    ensures r == "" || (!IsWhitespace(r[0]) && !IsWhitespace(r[|r| - 1]))
  {
    StripTrailing(StripLeading(s))
  }

  /** A string with no whitespace at either end is left as it is by strip(). */
  lemma StripUnchanged(s: string)
    requires s == "" || (!IsWhitespace(s[0]) && !IsWhitespace(s[|s| - 1]))
    ensures Strip(s) == s
  {
  }

  // ---------------------------------------------------------------------------
  // String.split(" ") (limit 0)
  // ---------------------------------------------------------------------------

  /** The pieces joined back with sep between them. */
  function Join(pieces: seq<string>, sep: char): string
  {
    if |pieces| == 0 then ""
    else if |pieces| == 1 then pieces[0]
    else Join(pieces[..|pieces| - 1], sep) + [sep] + pieces[|pieces| - 1]
  }

  /** Every piece of s between two occurrences of sep, empty pieces included. */
  function Pieces(s: string, sep: char): (r: seq<string>)
    ensures |r| >= 1
  {
    if s == "" then [""]
    else
      var init := Pieces(s[..|s| - 1], sep);
      if s[|s| - 1] == sep then init + [""]
      else init[..|init| - 1] + [init[|init| - 1] + [s[|s| - 1]]]
  }

  /** The pieces hold no sep, there is one more of them than there are occurrences of sep, and joining them with sep gives s back. */
  lemma PiecesSpec(s: string, sep: char)
    ensures |Pieces(s, sep)| == multiset(s)[sep] + 1
    ensures forall i :: 0 <= i < |Pieces(s, sep)| ==> sep !in Pieces(s, sep)[i]
    ensures Join(Pieces(s, sep), sep) == s
  {
    PiecesCount(s, sep);
    PiecesWithoutSepInside(s, sep);
    PiecesJoin(s, sep);
  }

  lemma {:induction false} PiecesCount(s: string, sep: char)
    ensures |Pieces(s, sep)| == multiset(s)[sep] + 1
  {
    if s != "" {
      var s', c := s[..|s| - 1], s[|s| - 1];
      assert s == s' + [c];
      PiecesCount(s', sep);
    }
  }

  lemma {:induction false} PiecesWithoutSepInside(s: string, sep: char)
    ensures forall i :: 0 <= i < |Pieces(s, sep)| ==> sep !in Pieces(s, sep)[i]
  {
    if s != "" {
      var s', c := s[..|s| - 1], s[|s| - 1];
      PiecesWithoutSepInside(s', sep);
      var init := Pieces(s', sep);
      var r := Pieces(s, sep);
      if c != sep {
        assert r == init[..|init| - 1] + [init[|init| - 1] + [c]];
        forall i | 0 <= i < |r| ensures sep !in r[i] {
          if i < |r| - 1 {
            assert r[i] == init[i];
          }
        }
      }
    }
  }

  lemma {:induction false} PiecesJoin(s: string, sep: char)
    ensures Join(Pieces(s, sep), sep) == s
  {
    if s != "" {
      var s', c := s[..|s| - 1], s[|s| - 1];
      assert s == s' + [c];
      PiecesJoin(s', sep);
      var init := Pieces(s', sep);
      var r := Pieces(s, sep);
      if c != sep {
        PiecesJoinLastExtended(init, c, sep);
      } else {
        assert r == init + [""];
        assert r[..|r| - 1] == init;
      }
    }
  }

  /** Appending a character to the last piece appends it to the joined text. */
  lemma PiecesJoinLastExtended(init: seq<string>, c: char, sep: char)
    requires init != []
    ensures Join(init[..|init| - 1] + [init[|init| - 1] + [c]], sep) == Join(init, sep) + [c]
  {
    var r := init[..|init| - 1] + [init[|init| - 1] + [c]];
    assert r[..|r| - 1] == init[..|init| - 1];
  }

  /** The longest prefix of ps that does not end with an empty string. */
  function DropTrailingEmpty(ps: seq<string>): (r: seq<string>)
    ensures r <= ps
    ensures r == [] || r[|r| - 1] != ""
    ensures forall i :: |r| <= i < |ps| ==> ps[i] == ""
  {
    if ps != [] && ps[|ps| - 1] == "" then DropTrailingEmpty(ps[..|ps| - 1]) else ps
  }

  /**
    s.split(String.valueOf(sep)): the whole string when sep does not occur,
    otherwise the pieces with the trailing empty ones removed.
   */
  function Split(s: string, sep: char): (r: seq<string>)
    ensures forall i :: 0 <= i < |r| ==> sep !in r[i]
    ensures sep !in s ==> r == [s]
    ensures sep in s ==> r == [] || r[|r| - 1] != ""
  {
    if sep !in s then [s]
    else
      PiecesSpec(s, sep);
      DropTrailingEmpty(Pieces(s, sep))
  }

  /** A string that does not end with sep splits into all its pieces: one more than the occurrences of sep. */
  lemma SplitIsPieces(s: string, sep: char)
    requires s != "" && s[|s| - 1] != sep
    ensures Split(s, sep) == Pieces(s, sep)
    ensures |Split(s, sep)| == multiset(s)[sep] + 1
  {
    PiecesSpec(s, sep);
    var ps := Pieces(s, sep);
    if sep in s {
      var init := Pieces(s[..|s| - 1], sep);
      assert ps[|ps| - 1] == init[|init| - 1] + [s[|s| - 1]];
    }
  }

  lemma {:induction false} PiecesWithoutSep(x: string, sep: char)
    requires sep !in x
    ensures Pieces(x, sep) == [x]
  {
    if x != "" {
      PiecesWithoutSep(x[..|x| - 1], sep);
      assert x == x[..|x| - 1] + [x[|x| - 1]];
    }
  }

  lemma {:induction false} PiecesAppend(a: string, sep: char, x: string)
    requires sep !in x
    ensures Pieces(a + [sep] + x, sep) == Pieces(a, sep) + [x]
  {
    var s := a + [sep] + x;
    if x == "" {
      assert s[..|s| - 1] == a && s[|s| - 1] == sep;
    } else {
      var x', c := x[..|x| - 1], x[|x| - 1];
      assert c != sep;
      PiecesAppend(a, sep, x');
      assert s[..|s| - 1] == a + [sep] + x' && s[|s| - 1] == c;
      var init := Pieces(a + [sep] + x', sep);
      assert init == Pieces(a, sep) + [x'];
      assert Pieces(s, sep) == init[..|init| - 1] + [init[|init| - 1] + [c]];
      assert x == x' + [c];
    }
  }

  /** Splitting a join of sep-free pieces gives the pieces back. */
  lemma {:induction false} PiecesOfJoin(ps: seq<string>, sep: char)
    requires |ps| >= 1
    requires forall i :: 0 <= i < |ps| ==> sep !in ps[i]
    ensures Pieces(Join(ps, sep), sep) == ps
  {
    if |ps| == 1 {
      PiecesWithoutSep(ps[0], sep);
    } else {
      var init := ps[..|ps| - 1];
      PiecesOfJoin(init, sep);
      PiecesAppend(Join(init, sep), sep, ps[|ps| - 1]);
      assert init + [ps[|ps| - 1]] == ps;
    }
  }

  // ---------------------------------------------------------------------------
  // String.indexOf and String.split(sep, 2)
  // ---------------------------------------------------------------------------

  predicate OccursAt(s: string, pat: string, i: nat)
  {
    i + |pat| <= |s| && s[i..i + |pat|] == pat
  }

  /** The first position at or after i where pat occurs in s. */
  function FindFrom(s: string, pat: string, i: nat): (r: Option<nat>)
    requires i <= |s|
    ensures r.Some? ==> i <= r.value && OccursAt(s, pat, r.value)
    ensures r.Some? ==> forall j :: i <= j < r.value ==> !OccursAt(s, pat, j)
    ensures r.None? ==> forall j :: i <= j <= |s| ==> !OccursAt(s, pat, j)
    decreases |s| - i
  {
    if i + |pat| > |s| then None
    else if s[i..i + |pat|] == pat then Some(i)
    else FindFrom(s, pat, i + 1)
  }

  /** s.indexOf(pat), with -1 as None. */
  function IndexOf(s: string, pat: string): Option<nat>
  {
    FindFrom(s, pat, 0)
  }

  /** An occurrence with none before it is the one indexOf finds. */
  lemma IndexOfFirst(s: string, pat: string, i: nat)
    requires OccursAt(s, pat, i)
    requires forall j :: 0 <= j < i ==> !OccursAt(s, pat, j)
    ensures IndexOf(s, pat) == Some(i)
  {
  }

  /**
    s.split(sep, 2) for a separator without regular-expression metacharacters:
    the text before the first occurrence of sep and everything after it, or
    [s] when sep does not occur.
   */
  function SplitOnce(s: string, sep: string): (r: seq<string>)
    requires sep != ""
    ensures |r| == 1 || |r| == 2
    ensures |r| == 1 <==> IndexOf(s, sep).None?
    ensures |r| == 1 ==> r[0] == s
    ensures |r| == 2 ==> s == r[0] + sep + r[1]
    ensures |r| == 2 ==> forall j :: 0 <= j < |r[0]| ==> !OccursAt(s, sep, j)
  {
    match IndexOf(s, sep)
    case Some(i) =>
      assert s == s[..i] + s[i..i + |sep|] + s[i + |sep|..];
      [s[..i], s[i + |sep|..]]
    case None => [s]
  }

  // ---------------------------------------------------------------------------
  // Lines ended by CRLF
  // ---------------------------------------------------------------------------

  /** Each line followed by CRLF, in order: what a StringBuilder fed line + "\r\n" holds. */
  function Terminated(lines: seq<string>): string
  {
    if lines == [] then "" else Terminated(lines[..|lines| - 1]) + lines[|lines| - 1] + CRLF
  }

  /** Terminated one line at a time: the new line and its CRLF go at the end. */
  lemma TerminatedStep(lines: seq<string>, line: string)
    ensures Terminated(lines + [line]) == Terminated(lines) + line + CRLF
  {
    assert (lines + [line])[..|lines|] == lines;
  }

  lemma {:induction false} TerminatedAppend(a: seq<string>, b: seq<string>)
    ensures Terminated(a + b) == Terminated(a) + Terminated(b)
    decreases |b|
  {
    if b == [] {
      assert a + b == a;
    } else {
      var b', x := b[..|b| - 1], b[|b| - 1];
      var ab := a + b;
      assert ab[..|ab| - 1] == a + b' && ab[|ab| - 1] == x;
      calc {
        Terminated(ab);
        Terminated(a + b') + x + CRLF;
        { TerminatedAppend(a, b'); }
        Terminated(a) + Terminated(b') + x + CRLF;
      }
    }
  }

  /**
    In CRLF-terminated lines that are non-empty and hold no CR, followed by a
    text that does not start with CR, no blank line (CRLF CRLF) starts
    anywhere inside the lines.
   */
  lemma {:induction false} NoBlankLineWithin(lines: seq<string>, rest: string)
    requires forall i :: 0 <= i < |lines| ==> lines[i] != "" && '\r' !in lines[i]
    requires rest != "" && rest[0] != '\r'
    ensures forall j :: 0 <= j < |Terminated(lines)| ==> !OccursAt(Terminated(lines) + rest, CRLF + CRLF, j)
  {
    if lines != [] {
      var init, x := lines[..|lines| - 1], lines[|lines| - 1];
      var rest' := x + CRLF + rest;
      NoBlankLineWithin(init, rest');
      var s := Terminated(lines) + rest;
      assert s == Terminated(init) + rest';
      var t := |Terminated(init)|;
      forall j | 0 <= j < |Terminated(lines)|
        ensures !OccursAt(s, CRLF + CRLF, j)
      {
        if t <= j < t + |x| {
          assert s[j] == x[j - t];
        } else if j == t + |x| {
          assert s[j + 2] == rest[0];
        } else if j == t + |x| + 1 {
          assert s[j] == '\n';
        }
      }
    }
  }

  /**
    A head of non-empty, CR-free lines, each ended by CRLF, then one more CRLF:
    the first blank line in the text is the one that ends the head, so what
    follows it is exactly rest.
   */
  lemma HeadEndsAtFirstBlankLine(head: seq<string>, rest: string)
    requires head != []
    requires forall i :: 0 <= i < |head| ==> head[i] != "" && '\r' !in head[i]
    ensures IndexOf(Terminated(head) + CRLF + rest, CRLF + CRLF) == Some(|Terminated(head)| - 2)
    ensures (Terminated(head) + CRLF + rest)[|Terminated(head)| + 2..] == rest
  {
    var init, x := head[..|head| - 1], head[|head| - 1];
    var before := Terminated(init);
    var after := x + (CRLF + CRLF) + rest;
    assert Terminated(head) + CRLF + rest == before + after by {
      assert Terminated(head) == before + x + CRLF;
    }
    NoBlankLineWithin(init, after);
    BlankAfterLastLine(before, x, rest);
  }

  /**
    Lines in which no blank line starts, then a CR-free last line, CRLF, CRLF
    and the rest: the first blank line is right after the last line.
   */
  lemma BlankAfterLastLine(before: string, x: string, rest: string)
    requires '\r' !in x
    requires forall j :: 0 <= j < |before| ==> !OccursAt(before + (x + (CRLF + CRLF) + rest), CRLF + CRLF, j)
    ensures IndexOf(before + (x + (CRLF + CRLF) + rest), CRLF + CRLF) == Some(|before| + |x|)
    ensures (before + (x + (CRLF + CRLF) + rest))[|before| + |x| + 4..] == rest
  {
    var s := before + (x + (CRLF + CRLF) + rest);
    var t := |before|;
    forall j | t <= j < t + |x|
      ensures !OccursAt(s, CRLF + CRLF, j)
    {
      assert s[j] == x[j - t];
    }
    assert s[t + |x|..t + |x| + 4] == CRLF + CRLF;
    IndexOfFirst(s, CRLF + CRLF, t + |x|);
  }

  // ---------------------------------------------------------------------------
  // Integer.toString for a non-negative int
  // ---------------------------------------------------------------------------

  predicate IsDigit(c: char)
  {
    '0' <= c <= '9'
  }

  function DigitChar(d: nat): (c: char)
    requires d < 10
    ensures IsDigit(c) && c as int - '0' as int == d
  {
    (('0' as int) + d) as char
  }

  /** The decimal digits of n, most significant first, without leading zeros. */
  function Decimal(n: nat): (r: string)
    ensures r != "" && forall i :: 0 <= i < |r| ==> IsDigit(r[i])
    ensures r[0] == '0' <==> n == 0
  {
    if n < 10 then [DigitChar(n)] else Decimal(n / 10) + [DigitChar(n % 10)]
  }

  function DigitValue(c: char): nat
    requires IsDigit(c)
  {
    c as int - '0' as int
  }

  /** The number a string of decimal digits denotes. */
  function DecimalValue(s: string): nat
    requires forall i :: 0 <= i < |s| ==> IsDigit(s[i])
  {
    if s == "" then 0
    else DecimalValue(s[..|s| - 1]) * 10 + DigitValue(s[|s| - 1])
  }

  /** Reading the printed number back gives the number. */
  lemma {:induction false} DecimalRoundTrip(n: nat)
    ensures DecimalValue(Decimal(n)) == n
  {
    if n >= 10 {
      DecimalRoundTrip(n / 10);
      var r := Decimal(n);
      assert r[..|r| - 1] == Decimal(n / 10);
    }
  }

  // ---------------------------------------------------------------------------
  // String.getBytes().length with UTF-8 as the charset
  // ---------------------------------------------------------------------------

  /** The number of bytes UTF-8 uses for one character. */
  function Utf8Width(c: char): (w: nat)
    ensures 1 <= w <= 4
    ensures w == 1 <==> c < '\U{80}'
  {
    if c < '\U{80}' then 1 else if c < '\U{800}' then 2 else if c < '\U{10000}' then 3 else 4
  }

  /** The length of s encoded in UTF-8. */
  function Utf8Length(s: string): (n: nat)
    ensures |s| <= n <= 4 * |s|
    ensures n == |s| <==> forall i :: 0 <= i < |s| ==> s[i] < '\U{80}'
  {
    if s == "" then 0 else Utf8Length(s[..|s| - 1]) + Utf8Width(s[|s| - 1])
  }
}
