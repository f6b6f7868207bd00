/** Go's JSON string form, reached from Foundation's encoder by textual
    rewrites, and read back by the string grammar of RFC 8259, section 7.
    Strings are sequences of Unicode scalar values. The rewrites search for
    whole characters: a scalar that joins a neighbour into one character is not
    found. Which scalars join is a parameter. */
module GoJson {
  import opened Outcomes

  function HexDigit(n: nat): char
    requires n < 16
  {
    if n < 10 then ('0' as int + n) as char else ('a' as int + (n - 10)) as char
  }

  /** What Foundation's JSONEncoder writes for one scalar of a string. */
  function FoundationEscape(c: char): string {
    if c == '\"' then "\\\""
    else if c == '\\' then "\\\\"
    else if c == '/' then "\\/"
    else if c == '\U{0008}' then "\\b"
    else if c == '\U{000C}' then "\\f"
    else if c == '\n' then "\\n"
    else if c == '\r' then "\\r"
    else if c == '\t' then "\\t"
    else if c < ' ' then "\\u00" + [HexDigit(c as int / 16), HexDigit(c as int % 16)]
    else [c]
  }

  function FoundationBody(s: string): string {
    if s == [] then [] else FoundationEscape(s[0]) + FoundationBody(s[1..])
  }

  function FoundationString(s: string): string {
    "\"" + FoundationBody(s) + "\""
  }

  /** What Go's encoder writes for one scalar. */
  function GoEscape(c: char): string {
    if c == '/' then "/"
    else if c == '<' then "\\u003c"
    else if c == '>' then "\\u003e"
    else if c == '&' then "\\u0026"
    else if c == '\U{2028}' then "\\u2028"
    else if c == '\U{2029}' then "\\u2029"
    else FoundationEscape(c)
  }

  function GoBody(s: string): string {
    if s == [] then [] else GoEscape(s[0]) + GoBody(s[1..])
  }

  function GoString(s: string): string {
    "\"" + GoBody(s) + "\""
  }

  /** Which scalars are escaped, and how: the quote and the backslash, the control
      characters, the HTML-sensitive characters and the two line separators. */
  lemma EscapeTable(c: char)
    ensures c == '\"' || c == '\\' ==> GoEscape(c) == ['\\', c]
    ensures GoEscape('\n') == "\\n" && GoEscape('\r') == "\\r" && GoEscape('\t') == "\\t"
    ensures GoEscape('\U{0008}') == "\\b" && GoEscape('\U{000C}') == "\\f"
    ensures c < ' ' && c !in ['\n', '\r', '\t', '\U{0008}', '\U{000C}'] ==>
              |GoEscape(c)| == 6 && GoEscape(c)[..4] == "\\u00" &&
              GoEscape(c)[4] == (if c < '\U{0010}' then '0' else '1') &&
              GoEscape(c)[5] == "0123456789abcdef"[c as int % 16]
    ensures GoEscape('<') == "\\u003c" && GoEscape('>') == "\\u003e" && GoEscape('&') == "\\u0026"
    ensures GoEscape('\U{2028}') == "\\u2028" && GoEscape('\U{2029}') == "\\u2029"
    ensures c >= ' ' && c !in ['\"', '\\', '<', '>', '&', '\U{2028}', '\U{2029}'] ==> GoEscape(c) == [c]
  {
    if c < ' ' {
      var digits := "0123456789abcdef";
      assert digits[c as int % 16] == HexDigit(c as int % 16);
    }
  }

  // ----- what is one character -----

  /** Whether two neighbouring scalars are parts of one character. */
  type Joiner = (char, char) -> bool

  /** Printable ASCII and the two line separators. */
  predicate Neutral(c: char) {
    ' ' <= c <= '~' || c == '\U{2028}' || c == '\U{2029}'
  }

  /** Two neutral scalars are two characters, and nothing joins a line separator. */
  ghost predicate Segments(joined: Joiner) {
    && (forall a, b | Neutral(a) && Neutral(b) :: !joined(a, b))
    && (forall a, b | a == '\U{2028}' || a == '\U{2029}' :: !joined(a, b) && !joined(b, a))
  }

  // ----- the rewrites -----

  predicate Breaks(prev: Option<char>, c: char, joined: Joiner) {
    prev.None? || !joined(prev.value, c)
  }

  /** The pattern stands at the front of s, and its ends are ends of characters. */
  predicate Found(prev: Option<char>, s: string, pattern: string, joined: Joiner)
    requires pattern != []
  {
    && pattern <= s && Breaks(prev, pattern[0], joined)
    && (|pattern| == |s| || Breaks(Some(pattern[|pattern| - 1]), s[|pattern|], joined))
  }

  /** Replaces every occurrence found, left to right; `prev` is the scalar before s. */
  function Replace(prev: Option<char>, s: string, pattern: string, text: string, joined: Joiner): string
    requires pattern != []
    decreases |s|
  {
    if s == [] then []
    else if Found(prev, s, pattern, joined) then
      text + Replace(Some(pattern[|pattern| - 1]), s[|pattern|..], pattern, text, joined)
    else [s[0]] + Replace(Some(s[0]), s[1..], pattern, text, joined)
  }

  /** A rewrite of one scalar to an escape. */
  datatype Rule = Rule(from: char, text: string)

  /** The rewrites that follow the first, in order: Go escapes the
      HTML-sensitive characters and the two line separators. */
  const GO_RULES := [Rule('<', "\\u003c"), Rule('>', "\\u003e"), Rule('&', "\\u0026"),
                     Rule('\U{2028}', "\\u2028"), Rule('\U{2029}', "\\u2029")]

  /** Applies the rules one after another, each to the whole text. */
  function Rewrite(s: string, rules: seq<Rule>, joined: Joiner): string
    decreases |rules|
  {
    if rules == [] then s
    else Rewrite(Replace(None, s, [rules[0].from], rules[0].text, joined), rules[1..], joined)
  }

  /** The encoder's output after the six rewrites. */
  function GoJsonText(value: string, joined: Joiner): string {
    Rewrite(Replace(None, FoundationString(value), "\\/", "/", joined), GO_RULES, joined)
  }

  /** Every scalar is a character of its own. */
  predicate ScalarsApart(a: char, b: char) {
    false
  }

  /** The same in text where no scalars join. */
  function GoJsonString(value: string): string {
    GoJsonText(value, ScalarsApart)
  }

  // ----- the text between two rewrites -----

  /** The scalars that are rewritten, in the order of the rewrites. */
  const REWRITTEN := ['/', '<', '>', '&', '\U{2028}', '\U{2029}']

  function First(c: char): char {
    FoundationEscape(c)[0]
  }

  function Last(c: char): char {
    FoundationEscape(c)[|FoundationEscape(c)| - 1]
  }

  /** The scalar after the escape of what comes before s. */
  function Next(s: string): char {
    if s == [] then '\"' else First(s[0])
  }

  /** Between these neighbours the escape of c is whole characters. */
  predicate Alone(before: char, c: char, after: char, joined: Joiner) {
    !joined(before, First(c)) && !joined(Last(c), after)
  }

  /** What stands for c after the first k rewrites. */
  function Unit(k: nat, before: char, c: char, after: char, joined: Joiner): string
    requires k <= |REWRITTEN|
  {
    if c in REWRITTEN[..k] && Alone(before, c, after, joined) then GoEscape(c) else FoundationEscape(c)
  }

  function Text(k: nat, before: char, s: string, joined: Joiner): string
    requires k <= |REWRITTEN|
    decreases |s|
  {
    if s == [] then "\"" else Unit(k, before, s[0], Next(s[1..]), joined) + Text(k, Last(s[0]), s[1..], joined)
  }

  /** The two scalars join the same neutral ones: they are equal, or both neutral. */
  predicate Alike(a: char, b: char) {
    a == b || (Neutral(a) && Neutral(b))
  }

  lemma EscapeEnds(c: char)
    ensures FoundationEscape(c) != [] && GoEscape(c) != []
    ensures c in REWRITTEN ==> Neutral(First(c)) && Neutral(Last(c))
    ensures c in REWRITTEN ==> Neutral(GoEscape(c)[0]) && Neutral(GoEscape(c)[|GoEscape(c)| - 1])
  {
  }

  lemma UnitEnds(k: nat, before: char, c: char, after: char, joined: Joiner)
    requires k <= |REWRITTEN|
    ensures var u := Unit(k, before, c, after, joined); u != [] && Alike(u[0], First(c)) && Alike(u[|u| - 1], Last(c))
  {
    EscapeEnds(c);
  }

  lemma TextStart(k: nat, before: char, s: string, joined: Joiner)
    requires k <= |REWRITTEN|
    ensures Text(k, before, s, joined) != [] && Alike(Text(k, before, s, joined)[0], Next(s))
    ensures k == 0 ==> Text(k, before, s, joined)[0] != '/'
  {
    if s != [] { UnitEnds(k, before, s[0], Next(s[1..]), joined); }
  }

  // ----- one rewrite -----

  /** The pattern begins nowhere inside u, so u is copied. */
  lemma {:induction false} Copied(prev: Option<char>, u: string, rest: string, pattern: string, text: string,
                                  joined: Joiner)
    requires pattern != [] && u != []
    requires forall i | 0 <= i < |u| :: !Found(if i == 0 then prev else Some(u[i - 1]), u[i..] + rest, pattern, joined)
    ensures Replace(prev, u + rest, pattern, text, joined) ==
            u + Replace(Some(u[|u| - 1]), rest, pattern, text, joined)
    decreases |u|
  {
    assert u[0..] + rest == u + rest;
    assert (u + rest)[1..] == u[1..] + rest;
    if |u| == 1 {
      assert u[1..] + rest == rest;
    } else {
      forall i | 0 <= i < |u[1..]|
        ensures !Found(if i == 0 then Some(u[0]) else Some(u[1..][i - 1]), u[1..][i..] + rest, pattern, joined)
      {
        assert u[1..][i..] == u[i + 1..];
      }
      Copied(Some(u[0]), u[1..], rest, pattern, text, joined);
      assert u == [u[0]] + u[1..];
    }
  }

  /** Rewrite k finds its scalar's escape, when that is whole characters. */
  lemma Matched(k: nat, prev: char, before: char, after: char, rest: string, joined: Joiner)
    requires k < |REWRITTEN| && Segments(joined) && Alike(prev, before) && rest != [] && Alike(rest[0], after)
    ensures var p := FoundationEscape(REWRITTEN[k]);
            Found(Some(prev), p + rest, p, joined) <==> Alone(before, REWRITTEN[k], after, joined)
  {
    var p := FoundationEscape(REWRITTEN[k]);
    EscapeEnds(REWRITTEN[k]);
    assert REWRITTEN[k] in REWRITTEN;
    assert p <= p + rest && (p + rest)[|p|] == rest[0];
  }

  /** No other place holds it. */
  lemma Unmatched(k: nat, prev: Option<char>, u: string, i: nat, rest: string, joined: Joiner)
    requires k < |REWRITTEN| && i < |u| && rest != []
    requires u == FoundationEscape(REWRITTEN[k]) ==> i > 0
    requires if k == 0 then (forall j | 1 <= j < |u| :: u[j] == '/' ==> u == "\\/") && rest[0] != '/'
             else u == [REWRITTEN[k]] || REWRITTEN[k] !in u
    ensures !Found(prev, u[i..] + rest, FoundationEscape(REWRITTEN[k]), joined)
  {
    var s := u[i..] + rest;
    assert s[0] == u[i];
    if k == 0 {
      assert FoundationEscape(REWRITTEN[0]) == "\\/";
      if |s| > 1 {
        assert s[1] == if i + 1 < |u| then u[i + 1] else rest[0];
      }
    } else {
      assert FoundationEscape(REWRITTEN[k]) == [REWRITTEN[k]];
    }
  }

  lemma UnitShape(k: nat, before: char, c: char, after: char, joined: Joiner)
    requires k < |REWRITTEN|
    ensures var u := Unit(k, before, c, after, joined);
            && (c == REWRITTEN[k] <==> u == FoundationEscape(REWRITTEN[k]))
            && (c == REWRITTEN[k] ==> c !in REWRITTEN[..k])
            && if k == 0 then forall j | 1 <= j < |u| :: u[j] == '/' ==> u == "\\/"
               else u == [REWRITTEN[k]] || REWRITTEN[k] !in u
  {
    if k == 0 {
      assert REWRITTEN[..k] == [] && REWRITTEN[0] == '/';
    } else {
      LaterShape(k, c);
    }
  }

  lemma LaterShape(k: nat, c: char)
    requires 0 < k < |REWRITTEN|
    ensures FoundationEscape(REWRITTEN[k]) == [REWRITTEN[k]] && REWRITTEN[k] !in REWRITTEN[..k]
    ensures c != REWRITTEN[k] ==> REWRITTEN[k] !in FoundationEscape(c)
    ensures c in REWRITTEN[..k] ==> REWRITTEN[k] !in GoEscape(c)
  {
  }

  /** Rewrite k turns one unit of the text into the next one. */
  lemma UnitRewritten(k: nat, prev: char, before: char, c: char, after: char, rest: string, joined: Joiner)
    requires k < |REWRITTEN| && Segments(joined) && Alike(prev, before)
    requires rest != [] && Alike(rest[0], after) && (k == 0 ==> rest[0] != '/')
    ensures var u, p, t := Unit(k, before, c, after, joined), FoundationEscape(REWRITTEN[k]), GoEscape(REWRITTEN[k]);
            && p != [] && u != []
            && Replace(Some(prev), u + rest, p, t, joined) ==
               Unit(k + 1, before, c, after, joined) + Replace(Some(u[|u| - 1]), rest, p, t, joined)
  {
    var u, p, t := Unit(k, before, c, after, joined), FoundationEscape(REWRITTEN[k]), GoEscape(REWRITTEN[k]);
    EscapeEnds(REWRITTEN[k]);
    UnitEnds(k, before, c, after, joined);
    UnitShape(k, before, c, after, joined);
    Matched(k, prev, before, after, rest, joined);
    NextUnit(k, before, c, after, joined);
    if c == REWRITTEN[k] && Alone(before, c, after, joined) {
      assert (p + rest)[|p|..] == rest;
    } else {
      forall i | 0 <= i < |u| ensures !Found(if i == 0 then Some(prev) else Some(u[i - 1]), u[i..] + rest, p, joined) {
        if i == 0 && c == REWRITTEN[k] {
          assert u[0..] == p;
        } else {
          Unmatched(k, if i == 0 then Some(prev) else Some(u[i - 1]), u, i, rest, joined);
        }
      }
      Copied(Some(prev), u, rest, p, t, joined);
    }
  }

  lemma NextUnit(k: nat, before: char, c: char, after: char, joined: Joiner)
    requires k < |REWRITTEN|
    ensures Unit(k + 1, before, c, after, joined) ==
            if c == REWRITTEN[k] && Alone(before, c, after, joined) then GoEscape(c)
            else Unit(k, before, c, after, joined)
  {
    assert REWRITTEN[..k + 1] == REWRITTEN[..k] + [REWRITTEN[k]];
  }

  lemma {:induction false} TextRewritten(k: nat, prev: char, before: char, s: string, joined: Joiner)
    requires k < |REWRITTEN| && Segments(joined) && Alike(prev, before)
    ensures var p := FoundationEscape(REWRITTEN[k]);
            p != [] && Replace(Some(prev), Text(k, before, s, joined), p, GoEscape(REWRITTEN[k]), joined) ==
                       Text(k + 1, before, s, joined)
    decreases |s|
  {
    EscapeEnds(REWRITTEN[k]);
    if s == [] {
      QuoteKept(k, Some(prev), [], joined);
      assert "\"" + [] == "\"";
    } else {
      var rest := Text(k, Last(s[0]), s[1..], joined);
      var u := Unit(k, before, s[0], Next(s[1..]), joined);
      TextStart(k, Last(s[0]), s[1..], joined);
      UnitEnds(k, before, s[0], Next(s[1..]), joined);
      UnitRewritten(k, prev, before, s[0], Next(s[1..]), rest, joined);
      TextRewritten(k, u[|u| - 1], Last(s[0]), s[1..], joined);
    }
  }

  lemma QuoteKept(k: nat, prev: Option<char>, rest: string, joined: Joiner)
    requires k < |REWRITTEN|
    ensures var p := FoundationEscape(REWRITTEN[k]);
            p != [] && Replace(prev, "\"" + rest, p, GoEscape(REWRITTEN[k]), joined) ==
                       "\"" + Replace(Some('\"'), rest, p, GoEscape(REWRITTEN[k]), joined)
  {
    EscapeEnds(REWRITTEN[k]);
    assert ("\"" + rest)[0] == '\"' && ("\"" + rest)[1..] == rest;
    assert FoundationEscape(REWRITTEN[k])[0] != '\"';
  }

  /** What the whole-character rewrites leave of a string. */
  function Written(value: string, joined: Joiner): string {
    "\"" + Text(|REWRITTEN|, '\"', value, joined)
  }

  lemma PassWritten(k: nat, value: string, joined: Joiner)
    requires k < |REWRITTEN| && Segments(joined)
    ensures var p := FoundationEscape(REWRITTEN[k]);
            p != [] && Replace(None, "\"" + Text(k, '\"', value, joined), p, GoEscape(REWRITTEN[k]), joined) ==
                       "\"" + Text(k + 1, '\"', value, joined)
  {
    QuoteKept(k, None, Text(k, '\"', value, joined), joined);
    TextRewritten(k, '\"', '\"', value, joined);
  }

  /** The rules are the rewrites after the first. */
  lemma RuleOf(k: nat)
    requires k < |GO_RULES|
    ensures |REWRITTEN| == |GO_RULES| + 1
    ensures [GO_RULES[k].from] == FoundationEscape(REWRITTEN[k + 1]) && GO_RULES[k].text == GoEscape(REWRITTEN[k + 1])
  {
  }

  lemma {:induction false} RulesWritten(k: nat, rules: seq<Rule>, value: string, joined: Joiner)
    requires k <= |GO_RULES| < |REWRITTEN| && rules == GO_RULES[k..] && Segments(joined)
    ensures Rewrite("\"" + Text(k + 1, '\"', value, joined), rules, joined) == Written(value, joined)
    decreases |rules|
  {
    if rules == [] {
      assert |REWRITTEN| == k + 1;
    } else {
      RuleOf(k);
      PassWritten(k + 1, value, joined);
      assert rules[0] == GO_RULES[k];
      RulesWritten(k + 1, rules[1..], value, joined);
    }
  }

  lemma {:induction false} TextUnwritten(before: char, s: string, joined: Joiner)
    ensures Text(0, before, s, joined) == FoundationBody(s) + "\""
    decreases |s|
  {
    if s != [] { TextUnwritten(Last(s[0]), s[1..], joined); }
  }

  lemma FirstWritten(value: string, pattern: string, text: string, joined: Joiner)
    requires Segments(joined) && pattern == "\\/" && text == "/"
    ensures Replace(None, FoundationString(value), pattern, text, joined) == "\"" + Text(1, '\"', value, joined)
  {
    FoundationText(value, joined);
    PassWritten(0, value, joined);
    SlashRule(pattern, text);
  }

  lemma FoundationText(value: string, joined: Joiner)
    ensures FoundationString(value) == "\"" + Text(0, '\"', value, joined)
  {
    TextUnwritten('\"', value, joined);
  }

  lemma SlashRule(pattern: string, text: string)
    requires pattern == "\\/" && text == "/"
    ensures pattern == FoundationEscape(REWRITTEN[0]) && text == GoEscape(REWRITTEN[0])
  {
  }

  /** The six rewrites, whole characters only, in one pass. */
  lemma WrittenText(value: string, joined: Joiner)
    requires Segments(joined)
    ensures GoJsonText(value, joined) == Written(value, joined)
  {
    FirstWritten(value, "\\/", "/", joined);
    RulesWritten(0, GO_RULES, value, joined);
  }

  // ----- what it means -----

  /** No scalar to be rewritten joins a neighbour's escape. */
  predicate Isolated(before: char, s: string, joined: Joiner)
    decreases |s|
  {
    s == [] ||
    ((s[0] in REWRITTEN ==> Alone(before, s[0], Next(s[1..]), joined)) && Isolated(Last(s[0]), s[1..], joined))
  }

  lemma UnitIsGo(before: char, c: char, after: char, joined: Joiner)
    ensures var u := Unit(|REWRITTEN|, before, c, after, joined);
            if c in REWRITTEN ==> Alone(before, c, after, joined) then u == GoEscape(c)
            else u != [] && GoEscape(c) != [] && u[0] != GoEscape(c)[0]
  {
    assert REWRITTEN[..|REWRITTEN|] == REWRITTEN;
  }

  lemma {:induction false} TextIsGo(before: char, s: string, joined: Joiner)
    ensures Text(|REWRITTEN|, before, s, joined) == GoBody(s) + "\"" <==> Isolated(before, s, joined)
    decreases |s|
  {
    if s != [] {
      var u, g := Unit(|REWRITTEN|, before, s[0], Next(s[1..]), joined), GoEscape(s[0]);
      var a, b := Text(|REWRITTEN|, Last(s[0]), s[1..], joined), GoBody(s[1..]) + "\"";
      UnitIsGo(before, s[0], Next(s[1..]), joined);
      TextIsGo(Last(s[0]), s[1..], joined);
      assert GoBody(s) + "\"" == g + b;
      if s[0] in REWRITTEN ==> Alone(before, s[0], Next(s[1..]), joined) {
        assert (g + a)[|g|..] == a && (g + b)[|g|..] == b;
      } else {
        assert (u + a)[0] == u[0] && (g + b)[0] == g[0];
      }
    }
  }

  /** The rewrites give Go's form exactly when no scalar they look for is joined
      to a neighbour. */
  lemma SinglePass(value: string, joined: Joiner)
    requires Segments(joined)
    ensures GoJsonText(value, joined) == GoString(value) <==> Isolated('\"', value, joined)
  {
    WrittenText(value, joined);
    TextIsGo('\"', value, joined);
    var t, b := Text(|REWRITTEN|, '\"', value, joined), GoBody(value) + "\"";
    assert GoString(value) == "\"" + b;
    assert ("\"" + t)[1..] == t && ("\"" + b)[1..] == b;
  }

  /** A less-than sign stays as it is under a combining mark. */
  lemma JoinedStays(mark: char, joined: Joiner)
    requires Segments(joined) && mark >= '\U{0080}' && joined('<', mark)
    ensures GoJsonText(['<', mark], joined) != GoString(['<', mark])
  {
    var value := ['<', mark];
    SinglePass(value, joined);
    assert value[1..] == [mark];
    MarkIsRaw(mark, joined);
  }

  lemma MarkIsRaw(mark: char, joined: Joiner)
    requires Segments(joined) && mark >= '\U{0080}' && joined('<', mark)
    ensures Next([mark]) == mark && !Isolated('\"', ['<', mark], joined)
  {
  }

  // ----- reading a string back -----

  function HexValue(c: char): Option<nat> {
    if '0' <= c <= '9' then Some(c as int - '0' as int)
    else if 'a' <= c <= 'f' then Some(c as int - 'a' as int + 10)
    else if 'A' <= c <= 'F' then Some(c as int - 'A' as int + 10)
    else None
  }

  /** The code unit of four hexadecimal digits at the front of s. */
  function HexUnit(s: string): Option<nat> {
    if |s| < 4 then None
    else
      match (HexValue(s[0]), HexValue(s[1]), HexValue(s[2]), HexValue(s[3]))
      case (Some(a), Some(b), Some(c), Some(d)) => Some(4096 * a + 256 * b + 16 * c + d)
      case _ => None
  }

  /** The scalar of a two-character escape. */
  function ShortEscape(c: char): Option<char> {
    if c == '\"' || c == '\\' || c == '/' then Some(c)
    else if c == 'b' then Some('\U{0008}')
    else if c == 'f' then Some('\U{000C}')
    else if c == 'n' then Some('\n')
    else if c == 'r' then Some('\r')
    else if c == 't' then Some('\t')
    else None
  }

  function IsScalar(n: nat): bool {
    n < 0xD800 || 0xE000 <= n < 0x11_0000
  }

  /** One character of a JSON string: its scalar and the text after it. */
  function ParseChar(s: string): Option<(char, string)> {
    if s == [] || s[0] == '\"' || s[0] < ' ' then None
    else if s[0] != '\\' then Some((s[0], s[1..]))
    else if |s| < 2 then None
    else if s[1] == 'u' then ParseUnicodeEscape(s[2..])
    else match ShortEscape(s[1])
      case Some(c) => Some((c, s[2..]))
      case None => None
  }

  /** After "\u": one code unit, or a surrogate pair of two. */
  function ParseUnicodeEscape(s: string): Option<(char, string)> {
    match HexUnit(s)
    case None => None
    case Some(unit) =>
      if IsScalar(unit) then Some((unit as char, s[4..]))
      else if unit < 0xDC00 && "\\u" <= s[4..] then
        match HexUnit(s[6..])
        case Some(low) =>
          var scalar := 0x1_0000 + (unit - 0xD800) * 0x400 + (low - 0xDC00);
          if 0xDC00 <= low < 0xE000 && IsScalar(scalar) then Some((scalar as char, s[10..])) else None
        case None => None
      else None
  }

  /** The characters up to the closing quote, and the text after it. */
  function ParseBody(s: string): Option<(string, string)>
    decreases |s|
  {
    if s != [] && s[0] == '\"' then Some(([], s[1..]))
    else
      match ParseChar(s)
      case Some((c, rest)) =>
        if |rest| >= |s| then None
        else
          (match ParseBody(rest)
           case Some((tail, after)) => Some(([c] + tail, after))
           case None => None)
      case None => None
  }

  function ParseString(s: string): Option<(string, string)> {
    if s != [] && s[0] == '\"' then ParseBody(s[1..]) else None
  }

  lemma HexDigitValue(n: nat)
    requires n < 16
    ensures HexValue(HexDigit(n)) == Some(n)
  {
  }

  lemma ParseEscapedChar(c: char, rest: string)
    ensures ParseChar(GoEscape(c) + rest) == Some((c, rest))
    ensures |GoEscape(c)| > 0 && GoEscape(c)[0] != '\"'
  {
    var s := GoEscape(c) + rest;
    if |GoEscape(c)| == 1 {
      ParseRaw(c, rest);
    } else if |GoEscape(c)| == 2 {
      ParseShort(GoEscape(c)[1], c, rest);
      assert GoEscape(c) == ['\\', GoEscape(c)[1]];
    } else {
      assert s[2..][4..] == rest;
      if c < ' ' {
        HexDigitValue(c as int / 16);
        HexDigitValue(c as int % 16);
        assert HexUnit(s[2..]) == Some(c as int);
      } else {
        assert HexUnit(s[2..]) == Some(c as int);
      }
    }
  }

  // ----- every spelling reads back -----

  lemma ParseShort(letter: char, c: char, rest: string)
    requires letter != 'u' && ShortEscape(letter) == Some(c)
    ensures ParseChar(['\\', letter] + rest) == Some((c, rest))
  {
    assert (['\\', letter] + rest)[2..] == rest;
  }

  lemma ParseRaw(c: char, rest: string)
    requires c >= ' ' && c != '\"' && c != '\\'
    ensures ParseChar([c] + rest) == Some((c, rest))
  {
    assert ([c] + rest)[1..] == rest;
  }

  lemma ParseFoundationChar(c: char, rest: string)
    ensures ParseChar(FoundationEscape(c) + rest) == Some((c, rest))
    ensures |FoundationEscape(c)| > 0 && FoundationEscape(c)[0] != '\"'
  {
    if c == '/' {
      SlashEscape(c);
      ParseShort('/', c, rest);
    } else if c in REWRITTEN {
      RewrittenRaw(c);
      ParseRaw(c, rest);
    } else {
      SameEscape(c);
      ParseEscapedChar(c, rest);
    }
  }

  lemma SlashEscape(c: char)
    requires c == '/'
    ensures FoundationEscape(c) == ['\\', '/'] && ShortEscape('/') == Some(c)
  {
  }

  lemma SameEscape(c: char)
    requires c !in REWRITTEN
    ensures FoundationEscape(c) == GoEscape(c)
  {
  }

  lemma RewrittenRaw(c: char)
    requires c in REWRITTEN && c != '/'
    ensures FoundationEscape(c) == [c] && c >= ' ' && c != '\"' && c != '\\'
  {
  }

  lemma UnitReads(k: nat, before: char, c: char, after: char, rest: string, joined: Joiner)
    requires k <= |REWRITTEN|
    ensures var u := Unit(k, before, c, after, joined);
            u != [] && u[0] != '\"' && ParseChar(u + rest) == Some((c, rest))
  {
    ParseEscapedChar(c, rest);
    ParseFoundationChar(c, rest);
  }

  lemma ParseQuote(rest: string)
    ensures ParseBody("\"" + rest) == Some(([], rest))
  {
    assert ("\"" + rest)[1..] == rest;
  }

  lemma ParseStep(u: string, c: char, tail: string, s: string, rest: string)
    requires u != [] && u[0] != '\"' && ParseChar(u + tail) == Some((c, tail))
    requires ParseBody(tail) == Some((s, rest))
    ensures ParseBody(u + tail) == Some(([c] + s, rest))
  {
  }

  lemma {:induction false} ParseText(k: nat, before: char, s: string, rest: string, joined: Joiner)
    requires k <= |REWRITTEN|
    ensures ParseBody(Text(k, before, s, joined) + rest) == Some((s, rest))
    decreases |s|
  {
    if s == [] {
      ParseQuote(rest);
    } else {
      var u := Unit(k, before, s[0], Next(s[1..]), joined);
      var tail := Text(k, Last(s[0]), s[1..], joined) + rest;
      ParseText(k, Last(s[0]), s[1..], rest, joined);
      UnitReads(k, before, s[0], Next(s[1..]), tail, joined);
      ParseStep(u, s[0], tail, s[1..], rest);
      assert Text(k, before, s, joined) + rest == u + tail && s == [s[0]] + s[1..];
    }
  }

  lemma ParseWritten(k: nat, value: string, rest: string, joined: Joiner)
    requires k <= |REWRITTEN|
    ensures ParseString("\"" + Text(k, '\"', value, joined) + rest) == Some((value, rest))
  {
    var text := Text(k, '\"', value, joined);
    ParseText(k, '\"', value, rest, joined);
    assert "\"" + text + rest == "\"" + (text + rest);
    assert ("\"" + (text + rest))[1..] == text + rest;
  }

  /** Reading the rewritten text returns the value, whatever joins and whatever
      follows it. */
  lemma JoinedRoundTrip(value: string, rest: string, joined: Joiner)
    requires Segments(joined)
    ensures ParseString(GoJsonText(value, joined) + rest) == Some((value, rest))
  {
    WrittenText(value, joined);
    ParseWritten(|REWRITTEN|, value, rest, joined);
  }

  /** The encoder's own form reads back too. */
  lemma FoundationRoundTrip(value: string, rest: string)
    ensures ParseString(FoundationString(value) + rest) == Some((value, rest))
  {
    FoundationText(value, ScalarsApart);
    ParseWritten(0, value, rest, ScalarsApart);
  }

  // ----- where every scalar is a character -----

  lemma {:induction false} ApartIsolated(before: char, s: string)
    ensures Isolated(before, s, ScalarsApart)
    decreases |s|
  {
    if s != [] { ApartIsolated(Last(s[0]), s[1..]); }
  }

  lemma ScalarPass(value: string)
    ensures GoJsonString(value) == GoString(value)
  {
    ApartIsolated('\"', value);
    SinglePass(value, ScalarsApart);
  }

  lemma RoundTrip(value: string, rest: string)
    ensures ParseString(GoJsonString(value) + rest) == Some((value, rest))
  {
    JoinedRoundTrip(value, rest, ScalarsApart);
  }
}
