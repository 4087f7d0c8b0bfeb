/**
 * The two records of the simulation: one preference request of a student
 * for a service (speciality at a city), and a ranked student holding the
 * list of their requests. Their text forms follow the `__str__` and
 * `__repr__` methods of the Python classes.
 */
module Assignment {
  import opened Common
  import opened Decimal

  /** One request: its 1-based position in the student's list and the service it names. */
  datatype AssignmentRequest = AssignmentRequest(index: int, spec: string, city: string)

  /**
   * What a student's `requests` field holds: the one-element zero array the
   * student is created with, or the array of drawn requests, where a draw that
   * matched no row left `None`.
   */
  datatype RequestList = Placeholder | Generated(items: seq<Option<AssignmentRequest>>)

  const RequestStrPrefix: string := "Assignment request n\U{B0}"
  const RequestReprPrefix: string := "assignmentRequest("
  const StudentStrPrefix: string := "Student n\U{B0}"
  const StudentReprPrefix: string := "Student("

  /** `str(request)`: it reads back to the request whenever the speciality id has no space. */
  function RequestStr(r: AssignmentRequest): (s: string)
    ensures IsPrefix(RequestStrPrefix, s)
    ensures ' ' !in r.spec ==> ParseRequestStr(s) == Some(r)
  {
    var s := RequestStrPrefix + (IntToString(r.index) + (" : " + (r.spec + (" at " + r.city))));
    AfterPrefixOfJoin(RequestStrPrefix, IntToString(r.index) + (" : " + (r.spec + (" at " + r.city))));
    if ' ' !in r.spec then
      RequestStrOfFields(r.index, r.spec, r.city);
      s
    else s
  }

  /**
   * `repr(request)`, a space after the first comma and none after the
   * second. That it reads back to the request whenever the speciality id
   * has no comma is the lemma `RequestReprRoundTrip`.
   */
  function RequestRepr(r: AssignmentRequest): (s: string)
    ensures IsPrefix(RequestReprPrefix, s) && s[|s| - 1] == ')'
  {
    var s := RequestReprPrefix + (IntToString(r.index) + (", " + (r.spec + ("," + r.city)))) + ")";
    InsideCallOfJoin(RequestReprPrefix, IntToString(r.index) + (", " + (r.spec + ("," + r.city))));
    s
  }

  // Reading the text forms back, one stage at a time.

  /** What stands after `prefix`, if `s` starts with it. */
  function AfterPrefix(prefix: string, s: string): Option<string>
  {
    if IsPrefix(prefix, s) then Some(s[|prefix|..]) else None
  }

  /** What stands between `prefix` and a closing parenthesis that ends `s`. */
  function InsideCall(prefix: string, s: string): Option<string>
  {
    if IsPrefix(prefix, s) && |s| > |prefix| && s[|s| - 1] == ')' then Some(s[|prefix|..|s| - 1]) else None
  }

  /** An integer up to the first `sep`, and what follows that `sep`. */
  function IndexThen(s: string, sep: char): Option<(int, string)>
  {
    match SplitAtFirst(s, sep)
    case None => None
    case Some((num, rest)) =>
      match ParseInt(num)
      case None => None
      case Some(n) => Some((n, rest))
  }

  /** Splits `": <spec> at <city>"` into speciality and city. */
  function SpecAtCity(s: string): Option<(string, string)>
  {
    match AfterPrefix(": ", s)
    case None => None
    case Some(t) =>
      match SplitAtFirst(t, ' ')
      case None => None
      case Some((spec, rest)) =>
        match AfterPrefix("at ", rest)
        case None => None
        case Some(city) => Some((spec, city))
  }

  /** Splits `" <spec>,<city>"` into speciality and city. */
  function SpecCommaCity(s: string): Option<(string, string)>
  {
    match AfterPrefix(" ", s)
    case None => None
    case Some(t) => SplitAtFirst(t, ',')
  }

  /** Reads a request back from its `str` form. */
  function ParseRequestStr(s: string): Option<AssignmentRequest>
  {
    match AfterPrefix(RequestStrPrefix, s)
    case None => None
    case Some(body) =>
      match IndexThen(body, ' ')
      case None => None
      case Some((index, tail)) =>
        match SpecAtCity(tail)
        case None => None
        case Some((spec, city)) => Some(AssignmentRequest(index, spec, city))
  }

  /** Reads a request back from its `repr` form. */
  function ParseRequestRepr(s: string): Option<AssignmentRequest>
  {
    match InsideCall(RequestReprPrefix, s)
    case None => None
    case Some(body) =>
      match IndexThen(body, ',')
      case None => None
      case Some((index, tail)) =>
        match SpecCommaCity(tail)
        case None => None
        case Some((spec, city)) => Some(AssignmentRequest(index, spec, city))
  }

  lemma AfterPrefixOfJoin(prefix: string, rest: string)
    ensures AfterPrefix(prefix, prefix + rest) == Some(rest)
  {
    StripPrefix(prefix, rest);
  }

  lemma InsideCallOfJoin(prefix: string, inner: string)
    ensures InsideCall(prefix, prefix + inner + ")") == Some(inner)
  {
    var s := prefix + inner + ")";
    assert s[..|prefix|] == prefix;
    assert s[|prefix|..|s| - 1] == inner;
  }

  lemma IndexThenOfJoin(n: int, sep: char, rest: string)
    requires sep == ' ' || sep == ','
    ensures IndexThen(IntToString(n) + ([sep] + rest), sep) == Some((n, rest))
  {
    SplitAtFirstOfJoin(IntToString(n), sep, rest);
    ParseIntOfIntToString(n);
  }

  lemma SpecAtCityOfJoin(spec: string, city: string)
    requires ' ' !in spec
    ensures SpecAtCity(": " + (spec + (" at " + city))) == Some((spec, city))
  {
    AfterPrefixOfJoin(": ", spec + (" at " + city));
    assert " at " + city == [' '] + ("at " + city);
    SplitAtFirstOfJoin(spec, ' ', "at " + city);
    AfterPrefixOfJoin("at ", city);
  }

  lemma SpecCommaCityOfJoin(spec: string, city: string)
    requires ',' !in spec
    ensures SpecCommaCity(" " + (spec + ("," + city))) == Some((spec, city))
  {
    AfterPrefixOfJoin(" ", spec + ("," + city));
    SplitAtFirstOfJoin(spec, ',', city);
  }

  lemma RequestStrOfFields(index: int, spec: string, city: string)
    requires ' ' !in spec
    ensures ParseRequestStr(RequestStrPrefix + (IntToString(index) + (" : " + (spec + (" at " + city)))))
         == Some(AssignmentRequest(index, spec, city))
  {
    var tail := ": " + (spec + (" at " + city));
    assert " : " + (spec + (" at " + city)) == [' '] + tail;
    AfterPrefixOfJoin(RequestStrPrefix, IntToString(index) + ([' '] + tail));
    IndexThenOfJoin(index, ' ', tail);
    SpecAtCityOfJoin(spec, city);
  }

  lemma RequestReprOfFields(index: int, spec: string, city: string)
    requires ',' !in spec
    ensures ParseRequestRepr(RequestReprPrefix + (IntToString(index) + (", " + (spec + ("," + city)))) + ")")
         == Some(AssignmentRequest(index, spec, city))
  {
    var tail := " " + (spec + ("," + city));
    assert ", " + (spec + ("," + city)) == [','] + tail;
    InsideCallOfJoin(RequestReprPrefix, IntToString(index) + ([','] + tail));
    IndexThenOfJoin(index, ',', tail);
    SpecCommaCityOfJoin(spec, city);
  }

  /** The text numpy prints for one element of an object array of requests: `None`, or the request's `repr`. */
  function ItemRepr(item: Option<AssignmentRequest>): (s: string)
    ensures |s| > 0
  {
    match item
    case None => "None"
    case Some(r) => RequestRepr(r)
  }

  /**
   * `repr` reads back when the speciality has no comma. Kept as a lemma
   * rather than a postcondition of `RequestRepr`, so that the texts built
   * from `RequestRepr` do not carry the parser along.
   */
  lemma RequestReprRoundTrip(r: AssignmentRequest)
    requires ',' !in r.spec
    ensures ParseRequestRepr(RequestRepr(r)) == Some(r)
  {
    RequestReprOfFields(r.index, r.spec, r.city);
  }

  /** An element's text reads back to the element, unless a speciality id holds a comma. */
  lemma ItemReprRoundTrip(item: Option<AssignmentRequest>)
    requires item.None? || ',' !in item.value.spec
    ensures ParseRequestRepr(ItemRepr(item)) == item
  {
    match item
    case None => assert !IsPrefix(RequestReprPrefix, "None");
    case Some(r) => RequestReprRoundTrip(r);
  }

  /** Words separated by single spaces: empty for no words, first word first, last word last. */
  function JoinWords(words: seq<string>): (s: string)
    requires forall i :: 0 <= i < |words| ==> |words[i]| > 0
    ensures s == [] <==> words == []
    ensures words != [] ==> IsPrefix(words[0], s) && IsSuffix(words[|words| - 1], s)
  {
    if |words| == 0 then ""
    else if |words| == 1 then words[0]
    else
      var init := JoinWords(words[..|words| - 1]);
      var last := words[|words| - 1];
      PrefixOfAppend(words[0], init, " " + last);
      SuffixOfPrepend(last, init + " ", last);
      assert (init + " ") + last == init + (" " + last);
      init + (" " + last)
  }

  /** Each item's text, in item order. */
  function ItemTexts(items: seq<Option<AssignmentRequest>>): (texts: seq<string>)
    ensures |texts| == |items|
    ensures forall i :: 0 <= i < |texts| ==> |texts[i]| > 0
  {
    seq(|items|, i requires 0 <= i < |items| => ItemRepr(items[i]))
  }

  /** The items' texts, separated by single spaces: empty for no items, first item first, last item last. */
  function JoinItems(items: seq<Option<AssignmentRequest>>): (s: string)
    ensures s == [] <==> items == []
    ensures items != [] ==> IsPrefix(ItemTexts(items)[0], s) && IsSuffix(ItemTexts(items)[|items| - 1], s)
  {
    JoinWords(ItemTexts(items))
  }

  /**
   * `str` of the numpy array held in a student's `requests` field: always
   * bracketed; the one-element zero placeholder prints as `[0.]`, a drawn
   * list as its items' texts between the brackets.
   */
  function RequestListText(requests: RequestList): (s: string)
    ensures |s| >= 2 && s[0] == '[' && s[|s| - 1] == ']'
    ensures requests.Placeholder? ==> s == "[0.]"
    ensures requests.Generated? ==> s[1..|s| - 1] == JoinItems(requests.items)
  {
    match requests
    case Placeholder => "[0.]"
    case Generated(items) => "[" + JoinItems(items) + "]"
  }

  /** `str(student)`, on the field values. */
  function StudentStr(classement: int, requests: RequestList): string
  {
    StudentStrPrefix + (IntToString(classement) + (" : " + RequestListText(requests)))
  }

  /** `repr(student)`, on the field values: no space after the comma. */
  function StudentRepr(classement: int, requests: RequestList): string
  {
    StudentReprPrefix + (IntToString(classement) + ("," + RequestListText(requests))) + ")"
  }

  /** Reads the rank and the text of the request list back from a student's `str` form. */
  function ParseStudentStr(s: string): Option<(int, string)>
  {
    match AfterPrefix(StudentStrPrefix, s)
    case None => None
    case Some(body) =>
      match IndexThen(body, ' ')
      case None => None
      case Some((classement, tail)) =>
        match AfterPrefix(": ", tail)
        case None => None
        case Some(text) => Some((classement, text))
  }

  /** Reads the rank and the text of the request list back from a student's `repr` form. */
  function ParseStudentRepr(s: string): Option<(int, string)>
  {
    match InsideCall(StudentReprPrefix, s)
    case None => None
    case Some(body) => IndexThen(body, ',')
  }

  /** A student's `str` form carries its rank and the text of its request list. */
  lemma StudentStrRoundTrip(classement: int, requests: RequestList)
    ensures ParseStudentStr(StudentStr(classement, requests))
         == Some((classement, RequestListText(requests)))
  {
    StudentStrOfText(classement, RequestListText(requests));
  }

  lemma StudentStrOfText(classement: int, text: string)
    ensures ParseStudentStr(StudentStrPrefix + (IntToString(classement) + (" : " + text)))
         == Some((classement, text))
  {
    assert " : " + text == [' '] + (": " + text);
    AfterPrefixOfJoin(StudentStrPrefix, IntToString(classement) + ([' '] + (": " + text)));
    IndexThenOfJoin(classement, ' ', ": " + text);
    AfterPrefixOfJoin(": ", text);
  }

  /** A student's `repr` form carries its rank and the text of its request list. */
  lemma StudentReprRoundTrip(classement: int, requests: RequestList)
    ensures ParseStudentRepr(StudentRepr(classement, requests))
         == Some((classement, RequestListText(requests)))
  {
    StudentReprOfText(classement, RequestListText(requests));
  }

  lemma StudentReprOfText(classement: int, text: string)
    ensures ParseStudentRepr(StudentReprPrefix + (IntToString(classement) + ("," + text)) + ")")
         == Some((classement, text))
  {
    InsideCallOfJoin(StudentReprPrefix, IntToString(classement) + ([','] + text));
    IndexThenOfJoin(classement, ',', text);
  }

  /**
   * A ranked student. The rank is fixed at creation; the request list is
   * overwritten in place once the requests have been drawn.
   */
  class Student {
    const classement: int
    var requests: RequestList

    constructor (classement: int, requests: RequestList)
      ensures this.classement == classement && this.requests == requests
    {
      this.classement := classement;
      this.requests := requests;
    }

    /** `str(self)`. */
    function Str(): (s: string)
      reads this
      ensures ParseStudentStr(s) == Some((classement, RequestListText(requests)))
    {
      StudentStrRoundTrip(classement, requests);
      StudentStr(classement, requests)
    }

    /** `repr(self)`. */
    function Repr(): (s: string)
      reads this
      ensures ParseStudentRepr(s) == Some((classement, RequestListText(requests)))
    {
      StudentReprRoundTrip(classement, requests);
      StudentRepr(classement, requests)
    }
  }
}
