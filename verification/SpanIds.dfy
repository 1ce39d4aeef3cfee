/** Span identifiers say what they stand for, and are never reused. */
module SpanIds {
  import opened Wrappers
  import opened Sequences
  import opened Trace
  import opened Text
  import opened Script
  import opened Runs

  // ---------- Reading an id back ----------

  /** What an id of a span other than Root stands for. */
  datatype SpanName =
    | CallName(number: nat, from: nat, to: string, methodNum: nat)
    | LabelName(number: nat, name: string)

  function AfterDigits(s: string): string {
    if s != [] && IsDigit(s[0]) then AfterDigits(s[1..]) else s
  }

  function BeforeDigits(s: string): (r: string)
    ensures |r| <= |s|
  {
    if s != [] && IsDigit(s[|s| - 1]) then BeforeDigits(s[..|s| - 1]) else s
  }

  /** The text between `left` and `right`, or None if the string is not of that form. */
  function Between(left: string, s: string, right: string): Option<string> {
    if |left| + |right| <= |s| && left == s[..|left|] && right == s[|s| - |right|..]
    then Some(s[|left|..|s| - |right|]) else None
  }

  /** Reads caller, callee and method of a call. The callee is all text between the first arrow and the last number. */
  function ReadCall(number: nat, s: string): Option<SpanName> {
    var route := Between("->", AfterDigits(s), "");
    if route.None? then None else
    var to := Between("", BeforeDigits(route.value), "::");
    if to.None? then None else
    Some(CallName(number, LeadingNumber(s, 0), to.value,
                  LeadingNumber(route.value[|BeforeDigits(route.value)|..], 0)))
  }

  /** Reads an id from left to right: its number, what kind of span it is, and the details. */
  function ReadId(id: string): Option<SpanName> {
    var number, rest := LeadingNumber(id, 0), AfterDigits(id);
    var call, span := Between("-Call(", rest, ")"), Between("-Span(", rest, ")");
    if call.Some? then ReadCall(number, call.value)
    else if span.Some? then Some(LabelName(number, span.value))
    else None
  }

  lemma {:induction false} SkipDigits(digits: string, rest: string)
    requires forall i | 0 <= i < |digits| :: IsDigit(digits[i])
    requires rest != [] ==> !IsDigit(rest[0])
    ensures AfterDigits(digits + rest) == rest
  {
    if digits == [] {
      ConcatNothing(rest);
    } else {
      assert (digits + rest)[1..] == digits[1..] + rest;
      SkipDigits(digits[1..], rest);
    }
  }

  lemma {:induction false} SkipLastDigits(rest: string, digits: string)
    requires forall i | 0 <= i < |digits| :: IsDigit(digits[i])
    requires rest != [] ==> !IsDigit(rest[|rest| - 1])
    ensures BeforeDigits(rest + digits) == rest
  {
    if digits == [] {
      ConcatNothing(rest);
    } else {
      assert (rest + digits)[..|rest + digits| - 1] == rest + digits[..|digits| - 1];
      SkipLastDigits(rest, digits[..|digits| - 1]);
    }
  }

  /** A number followed by something else is read, and what follows is left. */
  lemma ReadNumber(n: nat, rest: string)
    requires rest != [] && !IsDigit(rest[0])
    ensures LeadingNumber(Decimal(n) + rest, 0) == n && AfterDigits(Decimal(n) + rest) == rest
  {
    SkipDigits(Decimal(n), rest);
    NumberedPrefixReadsBack(n, rest[0], rest[1..]);
    assert Decimal(n) + [rest[0]] + rest[1..] == Decimal(n) + rest;
  }

  lemma WrittenBetween(left: string, s: string, right: string)
    ensures Between(left, left + s + right, right) == Some(s)
  {
  }

  lemma {:induction false} CallReadsBack(number: nat, from: nat, to: string, methodNum: nat, s: string)
    requires s == Decimal(from) + ("->" + to + "::" + Decimal(methodNum))
    ensures ReadCall(number, s) == Some(CallName(number, from, to, methodNum))
  {
    var route := to + "::" + Decimal(methodNum);
    assert "->" + to + "::" + Decimal(methodNum) == "->" + route + "";
    ReadNumber(from, "->" + route + "");
    WrittenBetween("->", route, "");
    SkipLastDigits(to + "::", Decimal(methodNum));
    assert "" + to + "::" == to + "::";
    WrittenBetween("", to, "::");
    DecimalReadsBack(methodNum);
  }

  lemma Regroup(n: string, l: string, a: string, x: string, to: string, y: string, m: string, r: string)
    ensures n + l + a + x + to + y + m + r == n + (l + (a + (x + to + y + m)) + r)
  {
    var route := x + to + y + m;
    Associate(n + l + a + x + to, y, m);
    Associate(n + l + a + x, to, y + m);
    Associate(n + l + a, x, to + (y + m));
    Associate(x + to, y, m);
    Associate(x, to, y + m);
    Associate(n + l, a, route);
    Associate(n, l, a + route);
    Associate(n, l + (a + route), r);
  }

  /** The id of a call span tells its number, caller, callee and method, whatever characters the address has. */
  lemma CallIdReadsBack(number: nat, from: nat, to: string, methodNum: nat, id: string)
    requires id == Decimal(number) + "-Call(" + Decimal(from) + "->" + to + "::" + Decimal(methodNum) + ")"
    ensures ReadId(id) == Some(CallName(number, from, to, methodNum))
  {
    var call := Decimal(from) + ("->" + to + "::" + Decimal(methodNum));
    var rest := "-Call(" + call + ")";
    Regroup(Decimal(number), "-Call(", Decimal(from), "->", to, "::", Decimal(methodNum), ")");
    ReadNumber(number, rest);
    WrittenBetween("-Call(", call, ")");
    CallReadsBack(number, from, to, methodNum, call);
  }

  /** The id of a named span tells its number and its label. */
  lemma LabelIdReadsBack(number: nat, name: string, id: string)
    requires id == Decimal(number) + "-Span(" + name + ")"
    ensures ReadId(id) == Some(LabelName(number, name))
  {
    var rest := "-Span(" + name + ")";
    assert id == Decimal(number) + rest;
    ReadNumber(number, rest);
    WrittenBetween("-Span(", name, ")");
    assert rest[..6] == "-Span(";
    assert rest[1] == 'S';
  }

  /** What is read from the ids of spans after Root. */
  lemma SpanIdReadsBack(number: nat, from: ActorID, to: Address, methodNum: MethodNum, name: string)
    requires number > 0
    ensures ReadId(SpanId(number, CallTag(from, to, methodNum))) == Some(CallName(number, from, to, methodNum))
    ensures ReadId(SpanId(number, NamedTag(name))) == Some(LabelName(number, name))
  {
    var callId, labelId := SpanId(number, CallTag(from, to, methodNum)), SpanId(number, NamedTag(name));
    assert callId == Decimal(number) + "-Call(" + Decimal(from) + "->" + to + "::" + Decimal(methodNum) + ")";
    assert labelId == Decimal(number) + "-Span(" + name + ")";
    CallIdReadsBack(number, from, to, methodNum, callId);
    LabelIdReadsBack(number, name, labelId);
  }

  /** Different calls have different tags, and no call has the tag of a named span. */
  lemma TagsTellApart(from: ActorID, to: Address, methodNum: MethodNum,
                      from2: ActorID, to2: Address, methodNum2: MethodNum, name: string, name2: string)
    ensures CallTag(from, to, methodNum) == CallTag(from2, to2, methodNum2)
       <==> from == from2 && to == to2 && methodNum == methodNum2
    ensures NamedTag(name) == NamedTag(name2) <==> name == name2
    ensures CallTag(from, to, methodNum) != NamedTag(name)
  {
    SpanIdReadsBack(1, from, to, methodNum, name);
    SpanIdReadsBack(1, from2, to2, methodNum2, name2);
  }

  // ---------- Ids are never reused ----------

  lemma IdStartsWithNumber(i: nat, tag: string)
    requires i > 0
    ensures LeadingNumber(SpanId(i, tag), 0) == i && IsDigit(SpanId(i, tag)[0])
  {
    NumberedPrefixReadsBack(i, '-', tag);
    assert SpanId(i, tag) == Decimal(i) + ['-'] + tag;
  }

  /** Two spans of an analysis have different ids, whatever the labels and addresses in them. */
  lemma {:induction false} UniqueIds(t: ExecutionTrace, i: nat, j: nat)
    requires i < j < |SpansOf(FullScript(t))|
    ensures SpansOf(FullScript(t))[i].id != SpansOf(FullScript(t))[j].id
  {
    var s := FullScript(t);
    var a, b := s[Openers(s)[i]].tag, s[Openers(s)[j]].tag;
    assert SpansOf(s)[i].id == SpanId(i, a) && SpansOf(s)[j].id == SpanId(j, b);
    IdStartsWithNumber(j, b);
    if i > 0 {
      IdStartsWithNumber(i, a);
    } else {
      RootIsFirst(Roles(t) + [ROOT_CLOSE]);
      assert [ROOT_OPEN] + (Roles(t) + [ROOT_CLOSE]) == s;
    }
  }
}
