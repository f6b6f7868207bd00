/** Compact JSON (RFC 8259): values, a reader, and a writer without spaces. What
    the writer writes reads back. */
module Json {
  import opened Outcomes
  import opened Strings
  import opened Decimal
  import opened GoJson

  /** The values that the recorded texts are made of; members keep their order. */
  datatype Value =
    | Text(text: string)
    | Number(number: nat)
    | Flag(flag: bool)
    | List(items: seq<Value>)
    | Record(members: seq<Member>)

  datatype Member = Member(name: string, value: Value)

  // ----- reading -----

  /** The value at the front of s, and the text after it. */
  function Read(s: string): Option<(Value, string)>
    decreases |s|, 1
  {
    if s == [] then None
    else if s[0] == '\"' then
      (match ParseString(s) case Some((text, rest)) => Some((Text(text), rest)) case None => None)
    else if IsDigit(s[0]) then Some((Number(DecimalValue(Digits(s))), s[|Digits(s)|..]))
    else if s[0] == 't' then (if "true" <= s then Some((Flag(true), s[4..])) else None)
    else if s[0] == 'f' then (if "false" <= s then Some((Flag(false), s[5..])) else None)
    else if s[0] == '[' then
      if |s| > 1 && s[1] == ']' then Some((List([]), s[2..]))
      else (match ReadItems(s[1..]) case Some((items, rest)) => Some((List(items), rest)) case None => None)
    else if s[0] == '{' then
      if |s| > 1 && s[1] == '}' then Some((Record([]), s[2..]))
      else (match ReadMembers(s[1..]) case Some((members, rest)) => Some((Record(members), rest)) case None => None)
    else None
  }

  /** The values up to the closing bracket. */
  function ReadItems(s: string): Option<(seq<Value>, string)>
    decreases |s|, 2
  {
    match Read(s)
    case None => None
    case Some((x, rest)) =>
      if rest == [] || |rest| >= |s| then None
      else if rest[0] == ']' then Some(([x], rest[1..]))
      else if rest[0] != ',' then None
      else
        match ReadItems(rest[1..])
        case Some((items, after)) => Some(([x] + items, after))
        case None => None
  }

  /** The members up to the closing brace. */
  function ReadMembers(s: string): Option<(seq<Member>, string)>
    decreases |s|, 2
  {
    match ParseString(s)
    case None => None
    case Some((name, colon)) =>
      if colon == [] || |colon| >= |s| || colon[0] != ':' then None
      else
        match Read(colon[1..])
        case None => None
        case Some((x, rest)) =>
          if rest == [] || |rest| >= |s| then None
          else if rest[0] == '}' then Some(([Member(name, x)], rest[1..]))
          else if rest[0] != ',' then None
          else
            match ReadMembers(rest[1..])
            case Some((members, after)) => Some(([Member(name, x)] + members, after))
            case None => None
  }

  // ----- writing -----

  function Write(v: Value, quote: string -> string): string
    decreases v, 1
  {
    match v
    case Text(text) => quote(text)
    case Number(number) => PrintNat(number)
    case Flag(flag) => if flag then "true" else "false"
    case List(items) => if items == [] then "[]" else "[" + WriteItems(items, quote)
    case Record(members) => if members == [] then "{}" else "{" + WriteMembers(members, quote)
  }

  /** The items, the commas between them and the closing bracket. */
  function WriteItems(items: seq<Value>, quote: string -> string): string
    requires items != []
    decreases items, 0
  {
    Write(items[0], quote) + if |items| == 1 then "]" else "," + WriteItems(items[1..], quote)
  }

  function WriteMembers(members: seq<Member>, quote: string -> string): string
    requires members != []
    decreases members, 0
  {
    quote(members[0].name) + ":" + Write(members[0].value, quote) +
    if |members| == 1 then "}" else "," + WriteMembers(members[1..], quote)
  }

  /** Quoted text is read back by the string grammar, whatever follows. */
  ghost predicate Quotes(quote: string -> string) {
    forall text, rest :: QuotedReads(quote(text), text, rest)
  }

  predicate QuotedReads(quoted: string, text: string, rest: string) {
    quoted != [] && quoted[0] == '\"' && ParseString(quoted + rest) == Some((text, rest))
  }

  /** A number ends where no digit follows. */
  predicate Ends(rest: string) {
    rest == [] || !IsDigit(rest[0])
  }

  lemma WriteStart(v: Value, quote: string -> string)
    requires Quotes(quote)
    ensures Write(v, quote) != [] && Write(v, quote)[0] != ']' && Write(v, quote)[0] != '}'
  {
    if v.Text? { assert QuotedReads(quote(v.text), v.text, []); }
  }

  lemma {:induction false} WrittenReads(v: Value, quote: string -> string, rest: string)
    requires Quotes(quote) && (v.Number? ==> Ends(rest))
    ensures Read(Write(v, quote) + rest) == Some((v, rest))
    decreases v, 1
  {
    match v {
      case Text(text) => TextReads(text, quote, rest);
      case Number(number) => NumberReads(number, rest);
      case Flag(flag) => FlagReads(flag, rest);
      case List(items) =>
        if items == [] {
          assert ("[]" + rest)[2..] == rest;
        } else {
          WrittenItemsRead(items, quote, rest);
          ListReads(items, quote, rest);
        }
      case Record(members) =>
        if members == [] {
          assert ("{}" + rest)[2..] == rest;
        } else {
          WrittenMembersRead(members, quote, rest);
          RecordReads(members, quote, rest);
        }
    }
  }

  lemma TextReads(text: string, quote: string -> string, rest: string)
    requires Quotes(quote)
    ensures Read(quote(text) + rest) == Some((Text(text), rest))
  {
    assert QuotedReads(quote(text), text, rest);
    assert (quote(text) + rest)[0] == quote(text)[0];
  }

  lemma NumberReads(number: nat, rest: string)
    requires Ends(rest)
    ensures Read(PrintNat(number) + rest) == Some((Number(number), rest))
  {
    PrintedReads(number, rest);
    assert (PrintNat(number) + rest)[0] == PrintNat(number)[0] && IsDigit(PrintNat(number)[0]);
  }

  lemma FlagReads(flag: bool, rest: string)
    ensures Read((if flag then "true" else "false") + rest) == Some((Flag(flag), rest))
  {
    if flag {
      assert ("true" + rest)[4..] == rest && ("true" + rest)[0] == 't';
    } else {
      assert ("false" + rest)[5..] == rest && ("false" + rest)[0] == 'f';
    }
  }

  lemma ListReads(items: seq<Value>, quote: string -> string, rest: string)
    requires Quotes(quote) && items != [] && ReadItems(WriteItems(items, quote) + rest) == Some((items, rest))
    ensures Read("[" + WriteItems(items, quote) + rest) == Some((List(items), rest))
  {
    var body := WriteItems(items, quote) + rest;
    WriteStart(items[0], quote);
    Regroup("[", WriteItems(items, quote), rest);
    assert ("[" + body)[1..] == body && ("[" + body)[0] == '[';
    assert body[0] == Write(items[0], quote)[0];
  }

  lemma RecordReads(members: seq<Member>, quote: string -> string, rest: string)
    requires Quotes(quote) && members != [] && ReadMembers(WriteMembers(members, quote) + rest) == Some((members, rest))
    ensures Read("{" + WriteMembers(members, quote) + rest) == Some((Record(members), rest))
  {
    var body := WriteMembers(members, quote) + rest;
    Regroup("{", WriteMembers(members, quote), rest);
    assert ("{" + body)[1..] == body && ("{" + body)[0] == '{';
    assert QuotedReads(quote(members[0].name), members[0].name, []);
    assert body[0] == quote(members[0].name)[0];
  }

  lemma ItemStep(x: Value, written: string, tail: string, items: seq<Value>, after: string)
    requires written != [] && Read(written + tail) == Some((x, tail)) && tail != []
    requires (tail[0] == ']' && items == [] && after == tail[1..]) ||
             (tail[0] == ',' && ReadItems(tail[1..]) == Some((items, after)))
    ensures ReadItems(written + tail) == Some(([x] + items, after))
  {
    assert [x] + [] == [x];
  }

  lemma {:induction false} WrittenItemsRead(items: seq<Value>, quote: string -> string, rest: string)
    requires Quotes(quote) && items != []
    ensures ReadItems(WriteItems(items, quote) + rest) == Some((items, rest))
    decreases items, 0
  {
    var x, written := items[0], Write(items[0], quote);
    WriteStart(x, quote);
    if |items| == 1 {
      var tail := "]" + rest;
      WrittenReads(x, quote, tail);
      Regroup(written, "]", rest);
      assert tail[1..] == rest;
      ItemStep(x, written, tail, [], rest);
      assert items == [x] + [];
    } else {
      var others := WriteItems(items[1..], quote);
      var tail := "," + others + rest;
      Regroup(",", others, rest);
      WrittenItemsRead(items[1..], quote, rest);
      WrittenReads(x, quote, tail);
      Regroup(written, "," + others, rest);
      assert tail[1..] == others + rest;
      ItemStep(x, written, tail, items[1..], rest);
      assert items == [x] + items[1..];
    }
  }

  lemma MemberStep(name: string, x: Value, quoted: string, written: string, tail: string,
                   members: seq<Member>, after: string)
    requires quoted != [] && ParseString(quoted + (":" + (written + tail))) == Some((name, ":" + (written + tail)))
    requires Read(written + tail) == Some((x, tail)) && tail != []
    requires (tail[0] == '}' && members == [] && after == tail[1..]) ||
             (tail[0] == ',' && ReadMembers(tail[1..]) == Some((members, after)))
    ensures ReadMembers(quoted + (":" + (written + tail))) == Some(([Member(name, x)] + members, after))
  {
    var colon := ":" + (written + tail);
    assert colon[0] == ':' && colon[1..] == written + tail;
    assert [Member(name, x)] + [] == [Member(name, x)];
  }

  lemma {:induction false} WrittenMembersRead(members: seq<Member>, quote: string -> string, rest: string)
    requires Quotes(quote) && members != []
    ensures ReadMembers(WriteMembers(members, quote) + rest) == Some((members, rest))
    decreases members, 0
  {
    var Member(name, x) := members[0];
    var quoted, written := quote(name), Write(x, quote);
    var end := if |members| == 1 then "}" else "," + WriteMembers(members[1..], quote);
    var tail := end + rest;
    if |members| == 1 {
      assert tail[1..] == rest;
    } else {
      WrittenMembersRead(members[1..], quote, rest);
      Regroup(",", WriteMembers(members[1..], quote), rest);
      assert tail[1..] == WriteMembers(members[1..], quote) + rest;
    }
    WrittenReads(x, quote, tail);
    assert QuotedReads(quoted, name, ":" + (written + tail));
    MemberStep(name, x, quoted, written, tail, members[1..], rest);
    Regrouped(quoted, written, end, rest);
    assert members == [Member(name, x)] + members[1..];
  }

  lemma Regrouped(quoted: string, written: string, end: string, rest: string)
    ensures quoted + ":" + written + end + rest == quoted + (":" + (written + (end + rest)))
  {
  }

  // ----- the shapes of the recorded texts -----

  /** The items joined by commas. */
  function Joined<T>(items: seq<T>, print_: T -> string): string {
    if items == [] then []
    else if |items| == 1 then print_(items[0])
    else print_(items[0]) + "," + Joined(items[1..], print_)
  }

  function PrintList<T>(items: seq<T>, print_: T -> string): string {
    "[" + Joined(items, print_) + "]"
  }

  function Values<T>(items: seq<T>, value: T -> Value): (values: seq<Value>)
    ensures |values| == |items| && forall i | 0 <= i < |items| :: values[i] == value(items[i])
  {
    seq(|items|, i requires 0 <= i < |items| => value(items[i]))
  }

  lemma {:induction false} JoinedWritten<T>(items: seq<T>, print_: T -> string, value: T -> Value,
                                            quote: string -> string)
    requires items != [] && forall x | x in items :: print_(x) == Write(value(x), quote)
    ensures Joined(items, print_) + "]" == WriteItems(Values(items, value), quote)
  {
    var values := Values(items, value);
    assert print_(items[0]) == Write(values[0], quote);
    if |items| > 1 {
      JoinedWritten(items[1..], print_, value, quote);
      assert Values(items[1..], value) == values[1..];
      var others := Joined(items[1..], print_);
      Regroup(print_(items[0]) + ",", others, "]");
      Regroup(print_(items[0]), ",", others + "]");
    }
  }

  /** A printed list of written items is a written list. */
  lemma ListWritten<T>(items: seq<T>, print_: T -> string, value: T -> Value, quote: string -> string)
    requires forall x | x in items :: print_(x) == Write(value(x), quote)
    ensures PrintList(items, print_) == Write(List(Values(items, value)), quote)
  {
    if items == [] {
      assert "[" + [] + "]" == "[]";
    } else {
      JoinedWritten(items, print_, value, quote);
      Regroup("[", Joined(items, print_), "]");
    }
  }

  lemma OneMember(k: string, v: Value, quote: string -> string)
    ensures Write(Record([Member(k, v)]), quote) == "{" + quote(k) + ":" + Write(v, quote) + "}"
  {
    var members := [Member(k, v)];
    assert WriteMembers(members, quote) == quote(k) + ":" + Write(v, quote) + "}";
  }

  lemma TwoMembers(k: string, v: Value, l: string, w: Value, quote: string -> string)
    ensures Write(Record([Member(k, v), Member(l, w)]), quote) ==
            "{" + quote(k) + ":" + Write(v, quote) + "," + quote(l) + ":" + Write(w, quote) + "}"
  {
    var members := [Member(k, v), Member(l, w)];
    assert members[1..] == [Member(l, w)];
    var rest := quote(l) + ":" + Write(w, quote) + "}";
    assert WriteMembers(members[1..], quote) == rest;
    assert WriteMembers(members, quote) == quote(k) + ":" + Write(v, quote) + ("," + rest);
  }

  lemma ThreeMembers(k: string, v: Value, l: string, w: Value, m: string, x: Value, quote: string -> string)
    ensures Write(Record([Member(k, v), Member(l, w), Member(m, x)]), quote) ==
            "{" + quote(k) + ":" + Write(v, quote) + "," + quote(l) + ":" + Write(w, quote) + "," +
            quote(m) + ":" + Write(x, quote) + "}"
  {
    var members := [Member(k, v), Member(l, w), Member(m, x)];
    assert members[1..] == [Member(l, w), Member(m, x)];
    MembersOfTwo(l, w, m, x, quote);
    FirstMember(members, quote, quote(l) + ":" + Write(w, quote) + "," + quote(m) + ":" + Write(x, quote) + "}");
    ThreeGrouped("{" + quote(k) + ":" + Write(v, quote), quote(l) + ":" + Write(w, quote),
                 quote(m) + ":" + Write(x, quote));
  }

  lemma FirstMember(members: seq<Member>, quote: string -> string, others: string)
    requires |members| > 1 && WriteMembers(members[1..], quote) == others
    ensures Write(Record(members), quote) ==
            "{" + (quote(members[0].name) + ":" + Write(members[0].value, quote) + ("," + others))
  {
  }

  lemma MembersOfTwo(l: string, w: Value, m: string, x: Value, quote: string -> string)
    ensures WriteMembers([Member(l, w), Member(m, x)], quote) ==
            quote(l) + ":" + Write(w, quote) + "," + quote(m) + ":" + Write(x, quote) + "}"
  {
    var members := [Member(l, w), Member(m, x)];
    assert members[1..] == [Member(m, x)];
    assert WriteMembers(members[1..], quote) == quote(m) + ":" + Write(x, quote) + "}";
  }

  lemma ThreeGrouped(a: string, b: string, c: string)
    ensures a + ("," + (b + "," + c + "}")) == a + "," + b + "," + c + "}"
  {
  }

  // ----- quoting -----

  /** A lower-case name, which every quoting leaves as it is. */
  predicate IsName(s: string) {
    forall i | 0 <= i < |s| :: 'a' <= s[i] <= 'z' || s[i] == '_'
  }

  lemma NameChar(c: char)
    requires 'a' <= c <= 'z' || c == '_'
    ensures GoEscape(c) == [c] == FoundationEscape(c)
  {
  }

  lemma {:induction false} NameBody(s: string)
    requires IsName(s)
    ensures GoBody(s) == s && FoundationBody(s) == s
  {
    if s != [] {
      assert IsName(s[1..]);
      NameBody(s[1..]);
      NameChar(s[0]);
      assert s == [s[0]] + s[1..];
    }
  }

  /** The quoting leaves names as they are. */
  ghost predicate Plain(quote: string -> string) {
    forall name | IsName(name) :: quote(name) == "\"" + name + "\""
  }

  lemma GoQuotes()
    ensures Quotes(GoJsonString) && Plain(GoJsonString)
  {
    forall name | IsName(name) ensures GoJsonString(name) == "\"" + name + "\"" {
      NameBody(name);
      ScalarPass(name);
    }
    forall text, rest ensures QuotedReads(GoJsonString(text), text, rest) {
      ScalarPass(text);
      RoundTrip(text, rest);
    }
  }

  lemma FoundationQuotes()
    ensures Quotes(FoundationString) && Plain(FoundationString)
  {
    forall name | IsName(name) ensures FoundationString(name) == "\"" + name + "\"" { NameBody(name); }
    forall text, rest ensures QuotedReads(FoundationString(text), text, rest) {
      FoundationRoundTrip(text, rest);
    }
  }

  lemma OneValue(k: string, v: Value, quote: string -> string)
    requires Plain(quote) && IsName(k)
    ensures Write(Record([Member(k, v)]), quote) == "{\"" + k + "\":" + Write(v, quote) + "}"
  {
    OneMember(k, v, quote);
    assert "{" + ("\"" + k + "\"") + ":" == "{\"" + k + "\":";
  }

  lemma TwoValues(k: string, v: Value, l: string, w: Value, quote: string -> string)
    requires Plain(quote) && IsName(k) && IsName(l)
    ensures Write(Record([Member(k, v), Member(l, w)]), quote) ==
            "{\"" + k + "\":" + Write(v, quote) + ",\"" + l + "\":" + Write(w, quote) + "}"
  {
    TwoMembers(k, v, l, w, quote);
    assert "{" + ("\"" + k + "\"") + ":" == "{\"" + k + "\":";
    Comma("{\"" + k + "\":" + Write(v, quote), l);
  }

  lemma ThreeValues(k: string, v: Value, l: string, w: Value, m: string, x: Value, quote: string -> string)
    requires Plain(quote) && IsName(k) && IsName(l) && IsName(m)
    ensures Write(Record([Member(k, v), Member(l, w), Member(m, x)]), quote) ==
            "{\"" + k + "\":" + Write(v, quote) + ",\"" + l + "\":" + Write(w, quote) +
            ",\"" + m + "\":" + Write(x, quote) + "}"
  {
    ThreeMembers(k, v, l, w, m, x, quote);
    assert "{" + ("\"" + k + "\"") + ":" == "{\"" + k + "\":";
    Comma("{\"" + k + "\":" + Write(v, quote), l);
    Comma("{\"" + k + "\":" + Write(v, quote) + ",\"" + l + "\":" + Write(w, quote), m);
  }

  lemma Comma(front: string, name: string)
    ensures front + "," + ("\"" + name + "\"") + ":" == front + ",\"" + name + "\":"
  {
    assert "," + "\"" == ",\"";
  }
}
