/**
 * The recursive-descent parser of rapidjson, as a function of the input. Its handler
 * never refuses an event. `JsonReader` is proved to compute it.
 */
module JsonDescent {
  import opened Bytes
  import opened JsonText

  /** What parsing one construct delivers: events, then either the end of the construct or an error. */
  datatype Parsed =
    | Done(events: seq<Event>, next: nat)
    | Failed(events: seq<Event>, code: ErrorCode, offset: nat)

  /** The result of parsing a document: where the stream is left, or the error. */
  datatype Outcome =
    | Accepted(events: seq<Event>, end: nat)
    | Rejected(events: seq<Event>, code: ErrorCode, offset: nat)

  function Prepend(events: seq<Event>, r: Parsed): Parsed {
    match r
    case Done(more, next) => Done(events + more, next)
    case Failed(more, code, offset) => Failed(events + more, code, offset)
  }

  function FromLexed(r: Lexed<Event>): Parsed {
    match r
    case Lexed(event, next) => Done([event], next)
    case Bad(code, offset) => Failed([], code, offset)
  }

  function StringEvent(r: Lexed<seq<byte>>): Lexed<Event> {
    match r
    case Lexed(text, next) => Lexed(String(text), next)
    case Bad(code, offset) => Bad(code, offset)
  }

  /** A value that is neither an object nor an array. */
  function ScanScalar(s: seq<byte>, i: nat, f: Flags): (r: Lexed<Event>)
    requires i <= |s|
    ensures r.Lexed? ==> i < r.next <= |s|
  {
    var c := Peek(s, i);
    if c == LETTER_N then ScanLiteral(s, i, NULL_REST, Null)
    else if c == LETTER_T then ScanLiteral(s, i, TRUE_REST, Bool(true))
    else if c == LETTER_F then ScanLiteral(s, i, FALSE_REST, Bool(false))
    else if c == QUOTE then StringEvent(ScanString(s, i + 1))
    else ScanNumber(s, i, f)
  }

  function ParseValue(s: seq<byte>, i: nat, f: Flags): (r: Parsed)
    requires i <= |s|
    ensures r.Done? ==> i < r.next <= |s|
    decreases |s| - i, 1
  {
    var c := Peek(s, i);
    if c == LEFT_CURLY then
      var j := SkipSpace(s, i + 1);
      if Peek(s, j) == RIGHT_CURLY then Done([StartObject, EndObject(0)], j + 1)
      else Prepend([StartObject], ParseMembers(s, j, f, 0))
    else if c == LEFT_BRACKET then
      var j := SkipSpace(s, i + 1);
      if Peek(s, j) == RIGHT_BRACKET then Done([StartArray, EndArray(0)], j + 1)
      else Prepend([StartArray], ParseElements(s, j, f, 0))
    else FromLexed(ScanScalar(s, i, f))
  }

  /** One member: name, colon, value, and the whitespace around them. */
  function ParseMember(s: seq<byte>, i: nat, f: Flags): (r: Parsed)
    requires i <= |s|
    ensures r.Done? ==> i < r.next <= |s| && !IsSpace(Peek(s, r.next))
    decreases |s| - i, 0
  {
    if Peek(s, i) != QUOTE then Failed([], ObjectMissName, i)
    else
      match ScanString(s, i + 1)
      case Bad(code, offset) => Failed([], code, offset)
      case Lexed(name, k) =>
        var colon := SkipSpace(s, k);
        if Peek(s, colon) != COLON then Failed([Key(name)], ObjectMissColon, colon)
        else
          match ParseValue(s, SkipSpace(s, colon + 1), f)
          case Failed(events, code, offset) => Failed([Key(name)] + events, code, offset)
          case Done(events, next) => Done([Key(name)] + events, SkipSpace(s, next))
  }

  /** The members of an object from the one at `i` on, `count` being already read. */
  function ParseMembers(s: seq<byte>, i: nat, f: Flags, count: nat): (r: Parsed)
    requires i <= |s|
    ensures r.Done? ==> i < r.next <= |s|
    decreases |s| - i, 2
  {
    var member := ParseMember(s, i, f);
    if member.Failed? then member
    else Prepend(member.events, MoreMembers(s, member.next, f, count + 1))
  }

  /** What follows a member, `count` members being read. */
  function MoreMembers(s: seq<byte>, i: nat, f: Flags, count: nat): (r: Parsed)
    requires i <= |s|
    ensures r.Done? ==> i < r.next <= |s|
    decreases |s| - i, 2
  {
    if Peek(s, i) == RIGHT_CURLY then Done([EndObject(count)], i + 1)
    else if Peek(s, i) != COMMA then Failed([], ObjectMissCommaOrCurlyBracket, i)
    else
      var j := SkipSpace(s, i + 1);
      if f.trailingCommas && Peek(s, j) == RIGHT_CURLY then Done([EndObject(count)], j + 1)
      else ParseMembers(s, j, f, count)
  }

  /** The elements of an array from the one at `i` on, `count` being already read. */
  function ParseElements(s: seq<byte>, i: nat, f: Flags, count: nat): (r: Parsed)
    requires i <= |s|
    ensures r.Done? ==> i < r.next <= |s|
    decreases |s| - i, 2
  {
    var element := ParseValue(s, i, f);
    if element.Failed? then element
    else Prepend(element.events, MoreElements(s, SkipSpace(s, element.next), f, count + 1))
  }

  /** What follows an element, `count` elements being read. */
  function MoreElements(s: seq<byte>, i: nat, f: Flags, count: nat): (r: Parsed)
    requires i <= |s|
    ensures r.Done? ==> i < r.next <= |s|
    decreases |s| - i, 2
  {
    if Peek(s, i) == RIGHT_BRACKET then Done([EndArray(count)], i + 1)
    else if Peek(s, i) != COMMA then Failed([], ArrayMissCommaOrSquareBracket, i)
    else
      var j := SkipSpace(s, i + 1);
      if f.trailingCommas && Peek(s, j) == RIGHT_BRACKET then Done([EndArray(count)], j + 1)
      else ParseElements(s, j, f, count)
  }

  /** What is left to check once the root value is read up to `next`. */
  function Finish(s: seq<byte>, f: Flags, events: seq<Event>, next: nat): Outcome
    requires next <= |s|
  {
    if f.stopWhenDone then Accepted(events, next)
    else
      var j := SkipSpace(s, next);
      if Peek(s, j) == 0 then Accepted(events, j) else Rejected(events, DocumentRootNotSingular, j)
  }

  function Parse(s: seq<byte>, f: Flags): Outcome {
    var i := SkipSpace(s, 0);
    if Peek(s, i) == 0 then Rejected([], DocumentEmpty, i)
    else
      match ParseValue(s, i, f)
      case Failed(events, code, offset) => Rejected(events, code, offset)
      case Done(events, next) => Finish(s, f, events, next)
  }
}
