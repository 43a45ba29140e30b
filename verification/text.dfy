/** The string primitives the service leans on: Python's `str.strip()`,
    `html.escape` (with its default `quote=True`), `str.lower()` restricted
    to ASCII, and Python's prefix slice `s[:m]`.  Strings are sequences of
    Unicode scalar values, which is what Python's `len` counts. */
module Text {

  // ---------------------------------------------------------------------
  // Whitespace and strip()
  // ---------------------------------------------------------------------

  /** The characters for which Python's `str.isspace()` holds: bidirectional
      class WS, B or S, or general category Zs. */
  predicate IsSpace(c: char) {
    || ('\t' <= c <= '\r')
    || ('\U{1C}' <= c <= '\U{1F}')
    || c == ' '
    || c == '\U{85}'
    || c == '\U{A0}'
    || c == '\U{1680}'
    || ('\U{2000}' <= c <= '\U{200A}')
    || c == '\U{2028}'
    || c == '\U{2029}'
    || c == '\U{202F}'
    || c == '\U{205F}'
    || c == '\U{3000}'
  }

  predicate AllSpace(s: string) {
    forall i :: 0 <= i < |s| ==> IsSpace(s[i])
  }

  /** Number of leading whitespace characters. */
  function LeadingSpaces(s: string): (n: nat)
    ensures n <= |s|
    ensures AllSpace(s[..n])
    ensures n < |s| ==> !IsSpace(s[n])
  {
    if s == [] || !IsSpace(s[0]) then 0
    else
      var k := LeadingSpaces(s[1..]);
      assert s[1..][..k] == s[1..k + 1];
      1 + k
  }

  /** Number of trailing whitespace characters. */
  function TrailingSpaces(s: string): (n: nat)
    ensures n <= |s|
    ensures AllSpace(s[|s| - n..])
    ensures n < |s| ==> !IsSpace(s[|s| - n - 1])
  {
    if s == [] || !IsSpace(s[|s| - 1]) then 0
    else
      var k := TrailingSpaces(s[..|s| - 1]);
      assert s[..|s| - 1][|s| - 1 - k..] == s[|s| - 1 - k..|s| - 1];
      1 + k
  }

  /** Python's `s.strip()`: the maximal whitespace prefix and suffix removed. */
  function Strip(s: string): (r: string)
    ensures LeadingSpaces(s) + |r| <= |s|
    // what remains is the infix that starts after the leading whitespace
    ensures r == s[LeadingSpaces(s)..LeadingSpaces(s) + |r|]
    // and only whitespace was cut off on the right
    ensures AllSpace(s[LeadingSpaces(s) + |r|..])
    // the result neither starts nor ends with whitespace
    ensures |r| > 0 ==> !IsSpace(r[0]) && !IsSpace(r[|r| - 1])
  {
    var lead := LeadingSpaces(s);
    var front := s[lead..];
    var trail := TrailingSpaces(front);
    var r := front[..|front| - trail];
    assert r == s[lead..lead + |r|];
    assert s[lead + |r|..] == front[|front| - trail..];
    assert |r| > 0 ==> r[0] == s[lead] && r[|r| - 1] == front[|front| - trail - 1];
    r
  }

  /** Stripping twice is stripping once. */
  lemma StripIdempotent(s: string)
    ensures Strip(Strip(s)) == Strip(s)
  {
    var r := Strip(s);
    if |r| > 0 {
      assert LeadingSpaces(r) == 0;
      assert r[..|r|] == r;
    }
  }

  /** `strip()` yields the empty string exactly for all-whitespace input. */
  lemma StripEmpty(s: string)
    ensures Strip(s) == [] <==> AllSpace(s)
  {
    var lead := LeadingSpaces(s);
    if Strip(s) == [] {
      assert s == s[..lead] + s[lead..];
    }
    if AllSpace(s) {
      assert lead == |s|;
    }
  }

  // ---------------------------------------------------------------------
  // html.escape
  // ---------------------------------------------------------------------

  /** The five characters `html.escape(s, quote=True)` replaces. */
  predicate IsHtmlSpecial(c: char) {
    c == '&' || c == '<' || c == '>' || c == '"' || c == '\''
  }

  function EscapeChar(c: char): string {
    match c
    case '&' => "&amp;"
    case '<' => "&lt;"
    case '>' => "&gt;"
    case '"' => "&quot;"
    case '\'' => "&#x27;"
    case _ => [c]
  }

  /** Python's `html.escape(s)`: each special character becomes its entity,
      every other character is copied. */
  function Escape(s: string): (r: string)
    ensures |r| >= |s|
    ensures |r| == |s| <==> (forall i :: 0 <= i < |s| ==> !IsHtmlSpecial(s[i]))
    // no markup-significant character survives, only entity-introducing '&'
    ensures forall i :: 0 <= i < |r| ==> r[i] != '<' && r[i] != '>' && r[i] != '"' && r[i] != '\''
  {
    if s == [] then []
    else
      var t := Escape(s[1..]);
      assert forall i :: 1 <= i < |s| ==> s[i] == s[1..][i - 1];
      EscapeChar(s[0]) + t
  }

  /** The entity `s` starts with, if it starts with one of the five that
      `Escape` produces: the character it stands for and its length, or
      length 0 when `s` starts with none of them. */
  function LeadingEntity(s: string): (r: (char, nat))
    ensures r.1 <= |s|
  {
    if |s| >= 5 && s[..5] == "&amp;" then ('&', 5)
    else if |s| >= 4 && s[..4] == "&lt;" then ('<', 4)
    else if |s| >= 4 && s[..4] == "&gt;" then ('>', 4)
    else if |s| >= 6 && s[..6] == "&quot;" then ('"', 6)
    else if |s| >= 6 && s[..6] == "&#x27;" then ('\'', 6)
    else (' ', 0)
  }

  /** Decodes exactly the five entities `Escape` produces; every other
      character is copied.  This is the reference inverse of `Escape`. */
  function Unescape(s: string): string
    decreases |s|
  {
    if s == [] then []
    else
      var e := LeadingEntity(s);
      if e.1 > 0 then [e.0] + Unescape(s[e.1..])
      else [s[0]] + Unescape(s[1..])
  }

  lemma LeadingEntityOfEscape(c: char, t: string)
    ensures IsHtmlSpecial(c) ==> LeadingEntity(EscapeChar(c) + t) == (c, |EscapeChar(c)|)
    ensures !IsHtmlSpecial(c) ==> LeadingEntity(EscapeChar(c) + t).1 == 0
  {
    var s := EscapeChar(c) + t;
    assert s[..|EscapeChar(c)|] == EscapeChar(c);
    if c == '&' {
      assert s[..5] == "&amp;";
    } else if c == '<' {
      assert s[..4] == "&lt;" && s[1] == 'l';
    } else if c == '>' {
      assert s[..4] == "&gt;" && s[1] == 'g';
    } else if c == '"' {
      assert s[..6] == "&quot;" && s[1] == 'q';
    } else if c == '\'' {
      assert s[..6] == "&#x27;" && s[1] == '#';
    } else {
      assert s[0] == c;
    }
  }

  lemma UnescapeEscapeChar(c: char, t: string)
    ensures Unescape(EscapeChar(c) + t) == [c] + Unescape(t)
  {
    var s := EscapeChar(c) + t;
    LeadingEntityOfEscape(c, t);
    assert s[|EscapeChar(c)|..] == t;
    if !IsHtmlSpecial(c) {
      assert s[0] == c;
    }
  }

  /** `html.escape` loses no information: unescaping gives the input back. */
  lemma {:induction false} EscapeRoundTrip(s: string)
    ensures Unescape(Escape(s)) == s
  {
    if s != [] {
      EscapeRoundTrip(s[1..]);
      UnescapeEscapeChar(s[0], Escape(s[1..]));
      assert s == [s[0]] + s[1..];
    }
  }

  /** Hence two different strings never escape to the same string (escaped
      dictionary keys cannot collide). */
  lemma EscapeInjective(a: string, b: string)
    requires Escape(a) == Escape(b)
    ensures a == b
  {
    EscapeRoundTrip(a);
    EscapeRoundTrip(b);
  }

  // ---------------------------------------------------------------------
  // lower() and slicing
  // ---------------------------------------------------------------------

  function LowerChar(c: char): char {
    if 'A' <= c <= 'Z' then (c as int - 'A' as int + 'a' as int) as char else c
  }

  /** `str.lower()` on the ASCII letters; other characters are kept. */
  function Lower(s: string): (r: string)
    ensures |r| == |s|
    ensures forall i :: 0 <= i < |r| ==> !('A' <= r[i] <= 'Z')
    // a capital becomes its own lower-case letter
    ensures forall i :: 0 <= i < |s| && 'A' <= s[i] <= 'Z' ==> r[i] == (s[i] as int + 32) as char
    ensures forall i :: 0 <= i < |s| && !('A' <= s[i] <= 'Z') ==> r[i] == s[i]
  {
    seq(|s|, i requires 0 <= i < |s| => LowerChar(s[i]))
  }

  /** Lowering an already lowered string changes nothing, and two strings
      that differ only in the case of their letters lower to the same one. */
  lemma LowerIdempotent(s: string)
    ensures Lower(Lower(s)) == Lower(s)
  {
  }

  lemma LowerIgnoresCase(s: string, t: string)
    requires |s| == |t|
    requires forall i :: 0 <= i < |s| ==> s[i] == t[i] || LowerChar(s[i]) == t[i] || s[i] == LowerChar(t[i])
    ensures Lower(s) == Lower(t)
  {
  }

  /** Python's `s[:m]` for an int `m`: a negative bound counts from the end. */
  function PrefixSlice(s: string, m: int): (r: string)
    ensures r <= s
    ensures m >= 0 ==> |r| == if m < |s| then m else |s|
    ensures m < 0 ==> |r| == if |s| + m > 0 then |s| + m else 0
  {
    if m >= 0 then (if m < |s| then s[..m] else s)
    else if |s| + m > 0 then s[..|s| + m]
    else []
  }
}
