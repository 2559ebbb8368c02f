/** The text the two JSON report visitors (`gitlab.renue.report.JsonReportVisitor` and
    `gitlab.renue.JsonReportVisitor`) produce, shared by both: the string escaper, the
    decimal text of numbers and lists that Java's `StringBuilder.append` and
    `List.toString` write, and the frame of the report document.

    The escaper replaces the seven characters `"`, `\`, backspace, form feed, line feed,
    carriage return and tab by their two-character escapes of section 7 of RFC 8259 and
    copies every other character. `Unescape` is a decoder for the contents of a JSON string
    written after that section; it is the reference the escaper is proved against. */
module JsonText {

  datatype Option<T> = None | Some(value: T)

  /** One search as it is reported: the query (absent when it was `null`), the ids it
      returned and the time it took. */
  datatype SearchResult = SearchResult(search: Option<string>, result: seq<int>, time: int)

  const Backspace: char := 8 as char
  const FormFeed: char := 12 as char

  // ---------------------------------------------------------------------------------
  // Section 7 of RFC 8259: the characters of a JSON string

  /** The character that the escape `\` followed by `letter` stands for, if that is one
      of the two-character escapes. */
  function Escapee(letter: char): Option<char> {
    if letter == '"' then Some('"')
    else if letter == '\\' then Some('\\')
    else if letter == '/' then Some('/')
    else if letter == 'b' then Some(Backspace)
    else if letter == 'f' then Some(FormFeed)
    else if letter == 'n' then Some('\n')
    else if letter == 'r' then Some('\r')
    else if letter == 't' then Some('\t')
    else None
  }

  predicate IsHex(c: char) {
    '0' <= c <= '9' || 'a' <= c <= 'f' || 'A' <= c <= 'F'
  }

  function HexValue(c: char): nat
    requires IsHex(c)
  {
    if '0' <= c <= '9' then c as int - '0' as int
    else if 'a' <= c <= 'f' then c as int - 'a' as int + 10
    else c as int - 'A' as int + 10
  }

  function Cons(c: char, rest: Option<string>): Option<string> {
    if rest.None? then None else Some([c] + rest.value)
  }

  /** Decodes the contents of a JSON string (what lies between the quotes). A quote or a
      control character below U+0020 must be escaped; `\uXXXX` escapes of UTF-16
      surrogate halves are not decoded. */
  function Unescape(s: string): Option<string>
    decreases |s|
  {
    if s == [] then Some([])
    else if s[0] == '\\' then
      if |s| < 2 then None
      else if s[1] == 'u' then
        if |s| >= 6 && IsHex(s[2]) && IsHex(s[3]) && IsHex(s[4]) && IsHex(s[5]) then
          var v := ((HexValue(s[2]) * 16 + HexValue(s[3])) * 16 + HexValue(s[4])) * 16 + HexValue(s[5]);
          if 0xD800 <= v <= 0xDFFF then None else Cons(v as char, Unescape(s[6..]))
        else None
      else if Escapee(s[1]).Some? then Cons(Escapee(s[1]).value, Unescape(s[2..]))
      else None
    else if s[0] == '"' || s[0] < ' ' then None
    else Cons(s[0], Unescape(s[1..]))
  }

  // ---------------------------------------------------------------------------------
  // The escaper

  /** The characters that `escapeJson` replaces. */
  predicate Special(c: char) {
    c == '"' || c == '\\' || c == Backspace || c == FormFeed || c == '\n' || c == '\r' || c == '\t'
  }

  /** The replacement of one character: the two-character escape that the decoder reads
      back as that character, or the character itself. */
  function EscapeChar(c: char): (r: string)
    ensures Special(c) ==> |r| == 2 && r[0] == '\\' && r[1] != 'u' && Escapee(r[1]) == Some(c)
    ensures !Special(c) ==> r == [c]
  {
    if c == '\\' then "\\\\"
    else if c == '"' then "\\\""
    else if c == Backspace then "\\b"
    else if c == FormFeed then "\\f"
    else if c == '\n' then "\\n"
    else if c == '\r' then "\\r"
    else if c == '\t' then "\\t"
    else [c]
  }

  /** The escaped text of `s`, character by character. */
  function Escaped(s: string): string {
    if s == [] then [] else EscapeChar(s[0]) + Escaped(s[1..])
  }

  /** The number of special characters in `s`. */
  function CountSpecial(s: string): nat {
    if s == [] then 0 else (if Special(s[0]) then 1 else 0) + CountSpecial(s[1..])
  }

  /** What the visitors write for a query: the escaped text, or `null` for a missing one. */
  function EscapedOrNull(str: Option<string>): string {
    if str.None? then "null" else Escaped(str.value)
  }

  lemma {:induction false} EscapedAppend(a: string, b: string)
    ensures Escaped(a + b) == Escaped(a) + Escaped(b)
  {
    if a == [] {
      assert a + b == b;
    } else {
      assert (a + b)[0] == a[0] && (a + b)[1..] == a[1..] + b;
      EscapedAppend(a[1..], b);
    }
  }

  /** `escapeJson`: a `StringBuilder` loop over the characters of `str` (`null` gives the
      text `null`). */
  method EscapeJson(str: Option<string>) returns (r: string)
    ensures r == EscapedOrNull(str)
  {
    if str.None? {
      return "null";
    }
    var s := str.value;
    r := "";
    for i := 0 to |s|
      invariant r == Escaped(s[..i])
    {
      var c := s[i];
      if c == '\\' {
        r := r + "\\\\";
      } else if c == '"' {
        r := r + "\\\"";
      } else if c == Backspace {
        r := r + "\\b";
      } else if c == FormFeed {
        r := r + "\\f";
      } else if c == '\n' {
        r := r + "\\n";
      } else if c == '\r' {
        r := r + "\\r";
      } else if c == '\t' {
        r := r + "\\t";
      } else {
        r := r + [c];
      }
      EscapedAppend(s[..i], [c]);
      assert s[..i + 1] == s[..i] + [c];
      assert Escaped([c]) == EscapeChar(c) by {
        assert [c][1..] == [];
      }
    }
    assert s[..|s|] == s;
  }

  /** The output is as long as the input plus one character per special character. */
  lemma {:induction false} EscapedLength(s: string)
    ensures |Escaped(s)| == |s| + CountSpecial(s)
  {
    if s != [] {
      EscapedLength(s[1..]);
    }
  }

  /** Without special characters the escaper is the identity. */
  lemma {:induction false} EscapedIdentity(s: string)
    requires CountSpecial(s) == 0
    ensures Escaped(s) == s
  {
    if s != [] {
      EscapedIdentity(s[1..]);
      assert s == [s[0]] + s[1..];
    }
  }

  /** The escaped text holds no raw line break, so it stays on one line. */
  lemma {:induction false} EscapedNoBreak(s: string)
    ensures '\n' !in Escaped(s)
  {
    if s != [] {
      EscapedNoBreak(s[1..]);
      assert Escaped(s) == EscapeChar(s[0]) + Escaped(s[1..]);
    }
  }

  /** Decoding the replacement of one character followed by more text: the character
      comes back, unless it is a control character the escaper left raw, which a decoder
      must refuse. */
  lemma UnescapeStep(c: char, rest: string)
    ensures Unescape(EscapeChar(c) + rest)
         == if c < ' ' && !Special(c) then None else Cons(c, Unescape(rest))
  {
    var t := EscapeChar(c) + rest;
    if Special(c) {
      assert t[0] == '\\' && t[1] == EscapeChar(c)[1] && t[2..] == rest;
    } else {
      assert t[0] == c && t[1..] == rest;
    }
  }

  /** Decoding the escaped text gives back the original, provided it has no control
      character other than the five the escaper handles. */
  lemma {:induction false} EscapeRoundTrip(s: string)
    requires forall i | 0 <= i < |s| :: Special(s[i]) || s[i] >= ' '
    ensures Unescape(Escaped(s)) == Some(s)
  {
    if s != [] {
      EscapeRoundTrip(s[1..]);
      UnescapeStep(s[0], Escaped(s[1..]));
      assert s == [s[0]] + s[1..];
    }
  }

  /** Any other control character is copied raw, and the result is not the contents of a
      valid JSON string: decoding refuses it. */
  lemma {:induction false} RawControlRefused(s: string, i: nat)
    requires i < |s| && s[i] < ' ' && !Special(s[i])
    ensures Unescape(Escaped(s)) == None
  {
    UnescapeStep(s[0], Escaped(s[1..]));
    if i > 0 {
      RawControlRefused(s[1..], i - 1);
    }
  }

  // ---------------------------------------------------------------------------------
  // Numbers and lists as Java writes them

  function DigitChar(d: nat): char
    requires d < 10
  {
    ('0' as int + d) as char
  }

  /** The decimal digits of `n`, most significant first, with no leading zero. */
  function NatText(n: nat): (r: string)
    ensures |r| >= 1 && forall i | 0 <= i < |r| :: '0' <= r[i] <= '9'
    ensures r[0] == '0' ==> n == 0
  {
    if n < 10 then [DigitChar(n)] else NatText(n / 10) + [DigitChar(n % 10)]
  }

  /** The number a string of decimal digits denotes. */
  function DigitsValue(s: string): nat
    requires forall i | 0 <= i < |s| :: '0' <= s[i] <= '9'
  {
    if s == [] then 0 else DigitsValue(s[..|s| - 1]) * 10 + (s[|s| - 1] as int - '0' as int)
  }

  /** Reading the digits back gives the number. */
  lemma {:induction false} NatTextValue(n: nat)
    ensures DigitsValue(NatText(n)) == n
  {
    if n >= 10 {
      NatTextValue(n / 10);
      var r := NatText(n);
      assert r[..|r| - 1] == NatText(n / 10);
    }
  }

  /** `append(long)` and `Integer.toString`: a minus sign for negative numbers, then the
      digits. */
  function IntText(n: int): string {
    if n < 0 then "-" + NatText(-n) else NatText(n)
  }

  /** The text of an integer is a minus sign exactly when it is negative, followed by
      digits that read back as its absolute value. */
  lemma IntTextValue(n: int)
    ensures IntText(n) != [] && '\n' !in IntText(n)
    ensures (IntText(n)[0] == '-') <==> n < 0
    ensures var d := if n < 0 then IntText(n)[1..] else IntText(n);
      (forall i | 0 <= i < |d| :: '0' <= d[i] <= '9') && DigitsValue(d) == (if n < 0 then -n else n)
  {
    var m := if n < 0 then -n else n;
    var d := NatText(m);
    NatTextValue(m);
    assert '\n' !in d by {
      forall i | 0 <= i < |d| ensures d[i] != '\n' {
        assert '0' <= d[i] <= '9';
      }
    }
    if n < 0 {
      assert IntText(n) == "-" + d && IntText(n)[1..] == d;
    }
  }

  /** The parts in order with `sep` between consecutive ones. */
  function Join(parts: seq<string>, sep: string): string {
    if |parts| == 0 then ""
    else if |parts| == 1 then parts[0]
    else Join(parts[..|parts| - 1], sep) + sep + parts[|parts| - 1]
  }

  /** `List.toString` of a list of integers: `[1, 2, 3]`. */
  function ListText(xs: seq<int>): string {
    "[" + Join(seq(|xs|, i requires 0 <= i < |xs| => IntText(xs[i])), ", ") + "]"
  }

  /** Parts and separator without line breaks join into a text without one. */
  lemma {:induction false} JoinNoBreak(parts: seq<string>, sep: string)
    requires '\n' !in sep && forall i | 0 <= i < |parts| :: '\n' !in parts[i]
    ensures '\n' !in Join(parts, sep)
  {
    if |parts| > 1 {
      JoinNoBreak(parts[..|parts| - 1], sep);
    }
  }

  /** A list is written in brackets on one line; the empty list is `[]` and a one-element
      list is its element's text in brackets. */
  lemma ListTextShape(xs: seq<int>)
    ensures ListText(xs)[0] == '[' && ListText(xs)[|ListText(xs)| - 1] == ']'
    ensures '\n' !in ListText(xs)
    ensures xs == [] ==> ListText(xs) == "[]"
    ensures |xs| == 1 ==> ListText(xs) == "[" + IntText(xs[0]) + "]"
  {
    var parts := seq(|xs|, i requires 0 <= i < |xs| => IntText(xs[i]));
    forall i | 0 <= i < |parts| ensures '\n' !in parts[i] {
      IntTextValue(xs[i]);
    }
    JoinNoBreak(parts, ", ");
  }

  // ---------------------------------------------------------------------------------
  // The document

  /** The opening of the report, up to the first result object. */
  function Header(initTime: int): string {
    "{\n  \"initTime\": " + IntText(initTime) + ",\n  \"result\": [\n"
  }

  /** The closing of the report, after the last result object. */
  function Footer(): string {
    "  ]\n}"
  }

  /** The first `n` result objects, each on its own line(s) and followed by a comma
      unless it is the last of all. */
  function Lines(entries: seq<string>, n: nat): string
    requires n <= |entries|
  {
    if n == 0 then ""
    else Lines(entries, n - 1) + entries[n - 1] + (if n < |entries| then "," else "") + "\n"
  }

  /** Writing one more object after a text that ends with the first `n` lines. */
  lemma LinesStep(prefix: string, entries: seq<string>, n: nat)
    requires n < |entries|
    ensures prefix + Lines(entries, n + 1)
         == prefix + Lines(entries, n) + entries[n] + (if n + 1 < |entries| then "," else "") + "\n"
  {
    var comma := if n + 1 < |entries| then "," else "";
    var l := Lines(entries, n);
    assert Lines(entries, n + 1) == l + entries[n] + comma + "\n";
  }

  /** The whole report for the given result objects. */
  function Document(initTime: int, entries: seq<string>): string {
    Header(initTime) + Lines(entries, |entries|) + Footer()
  }

  /** The first `n` lines are the first `n` objects joined by commas and line breaks,
      followed by a comma unless the last object has been written. */
  lemma {:induction false} LinesPrefix(entries: seq<string>, n: nat)
    requires 0 < n <= |entries|
    ensures Lines(entries, n) == Join(entries[..n], ",\n") + (if n < |entries| then ",\n" else "\n")
  {
    if n > 1 {
      LinesPrefix(entries, n - 1);
      assert entries[..n][..n - 1] == entries[..n - 1];
    }
  }

  /** The objects appear in order, separated by a comma and a line break, with no comma
      after the last. */
  lemma LinesJoin(entries: seq<string>)
    ensures Lines(entries, |entries|) == if entries == [] then "" else Join(entries, ",\n") + "\n"
  {
    if entries != [] {
      LinesPrefix(entries, |entries|);
      assert entries[..|entries|] == entries;
    }
  }

  /** The document opens with the header and closes with the footer; with no results
      nothing lies between them. */
  lemma DocumentFrame(initTime: int, entries: seq<string>)
    ensures Header(initTime) <= Document(initTime, entries)
    ensures Document(initTime, entries)[|Document(initTime, entries)| - |Footer()|..] == Footer()
    ensures entries == [] ==> Document(initTime, entries) == Header(initTime) + Footer()
  {
    var d := Document(initTime, entries);
    assert d == Header(initTime) + (Lines(entries, |entries|) + Footer());
    assert d == (Header(initTime) + Lines(entries, |entries|)) + Footer();
  }
}
