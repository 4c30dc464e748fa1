/** `RestClient`: a client fixed at construction to one environment and one
    set of credentials, which turns each operation into one request to the
    gateway, keeps the text of the last successful reply, and keeps the table
    of errors left by the last failed call.

    The network, the XML parser and the date formats sit behind `Platform`:
    each call is given the round trip it will see and the parser and date
    functions it will use. */
module RestApi {
  import opened Wrappers
  import opened JavaText
  import opened FormEncoding
  import opened XmlTree
  import opened Reports
  import opened Requests
  import opened Decoders

  /** What one HTTP round trip gives back: the reply body of a successful
      call; the status code of a failed one with the text of its error stream
      (`None` where there is no such stream); or a failure before any status
      was read. */
  datatype Exchange =
    | Ok(body: string)
    | HttpFail(code: int32, errorBody: Option<string>)
    | TransportFail

  /** The collaborators a call relies on: the round trip, the XML parser, the
      `yyyy-MM-dd'T'HH:mm:ssz` formatter of request dates and the
      `yyyy-MM-dd'T'HH:mm:ss` reader of report dates. */
  datatype Platform = Platform(
    net: Request -> Exchange,
    parseXml: string -> Option<Document>,
    formatDate: Date -> string,
    parseDate: string -> Option<Date>)

  /** What the gateway call returns to its caller: the body, or a failure. */
  function Answer(ex: Exchange): (r: Result<string>)
    ensures r.Success? <==> ex.Ok?
    ensures r.Success? ==> r.value == ex.body
  {
    if ex.Ok? then Success(ex.body) else Failure
  }

  /** The error table after a failed call that read status `code` and error
      text `body`: for 400 the table of the body's `error` elements (empty
      when it does not parse), for any other status the single entry from the
      status, written in decimal, to the body. */
  function StatusErrors(code: int32, body: string, parseXml: string -> Option<Document>)
    : (r: map<string, string>)
    ensures code != 400 ==> r.Keys == {IntToString(code)} && r[IntToString(code)] == body
    ensures code == 400 && parseXml(body).None? ==> r == map[]
    ensures code == 400 && parseXml(body).Some? ==> r == ErrorTable(parseXml(body).value)
  {
    if code == 400 then
      match parseXml(body)
      case None => map[]
      case Some(doc) => ErrorTable(doc)
    else map[IntToString(code) := body]
  }

  /** Whether a round trip replaces the error table: only a failure that
      read both a status and an error text does. */
  predicate RecordsErrors(ex: Exchange) {
    ex.HttpFail? && ex.errorBody.Some?
  }

  /** The error table after a call whose round trip was `ex`: replaced after a
      failure that read a status and an error text, unchanged otherwise. */
  function ErrorsAfter(prior: map<string, string>, ex: Exchange, parseXml: string -> Option<Document>)
    : (r: map<string, string>)
    ensures !RecordsErrors(ex) ==> r == prior
    ensures RecordsErrors(ex) ==> r == StatusErrors(ex.code, ex.errorBody.value, parseXml)
  {
    match ex
    case HttpFail(code, Some(body)) => StatusErrors(code, body, parseXml)
    case _ => prior
  }

  /** `xmlResponse` after `xmlResponse = restGatewayCall(...)`: the reply on
      success; on failure the assignment never happens. */
  function Kept(prior: Option<string>, ex: Exchange): (r: Option<string>)
    ensures ex.Ok? ==> r == Some(ex.body)
    ensures !ex.Ok? ==> r == prior
  {
    if ex.Ok? then Some(ex.body) else prior
  }

  /** After a failure with any status but 400 the table holds one entry: its
      key reads back as the status and its value is the error text. */
  lemma StatusErrorReadsBack(code: int32, body: string, parseXml: string -> Option<Document>)
    requires code != 400
    ensures |StatusErrors(code, body, parseXml)| == 1
    ensures forall k <- StatusErrors(code, body, parseXml) ::
      ParseInt(k) == Some(code) && StatusErrors(code, body, parseXml)[k] == body
  {
    ParseIntToString(code);
  }

  /** The path of `getDeliveryReport`: the report name, then `/custom/` and
      the tag when one is given, then the start and end dates when a range is
      given, each path segment form-encoded. No argument can add a segment:
      the path has one `/` after the fixed prefix and two more for each of the
      tag and the range. */
  function ReportService(name: string, custom: Option<string>, range: Option<(Date, Date)>,
                         formatDate: Date -> string): (r: string)
    ensures IsPrefix("deliveryReport/" + FormEncode(name), r)
    ensures Slashes(r) == 1 + (if custom.Some? then 2 else 0) + (if range.Some? then 2 else 0)
  {
    var head := "deliveryReport/" + FormEncode(name);
    var tail := TagSegment(custom) + RangeSegments(range, formatDate);
    PrefixSlashes();
    SegmentSlashes("deliveryReport/", FormEncode(name));
    SlashesConcat(TagSegment(custom), RangeSegments(range, formatDate));
    SlashesConcat(head, tail);
    assert (head + tail)[..|head|] == head;
    head + tail
  }

  /** `/custom/` and the encoded tag, when a tag is given. */
  function TagSegment(custom: Option<string>): (t: string)
    ensures Slashes(t) == if custom.Some? then 2 else 0
  {
    if custom.None? then ""
    else
      CustomSlashes();
      SegmentSlashes("/custom/", FormEncode(custom.value));
      "/custom/" + FormEncode(custom.value)
  }

  /** `/`, the encoded start, `/` and the encoded end, when a range is given. */
  function RangeSegments(range: Option<(Date, Date)>, formatDate: Date -> string): (d: string)
    ensures Slashes(d) == if range.Some? then 2 else 0
  {
    if range.None? then ""
    else
      var start := "/" + FormEncode(formatDate(range.value.0));
      var end := "/" + FormEncode(formatDate(range.value.1));
      OneSlash();
      SegmentSlashes("/", FormEncode(formatDate(range.value.0)));
      SegmentSlashes("/", FormEncode(formatDate(range.value.1)));
      SlashesConcat(start, end);
      start + end
  }

  /** The number of `/` in a path. */
  function Slashes(s: string): nat {
    if s == [] then 0 else (if s[0] == '/' then 1 else 0) + Slashes(s[1..])
  }

  lemma {:induction false} SlashesConcat(a: string, b: string)
    ensures Slashes(a + b) == Slashes(a) + Slashes(b)
  {
    if a == [] {
      assert a + b == b;
    } else {
      assert (a + b)[0] == a[0] && (a + b)[1..] == a[1..] + b;
      SlashesConcat(a[1..], b);
    }
  }

  lemma {:induction false} NoSlash(s: string)
    requires '/' !in s
    ensures Slashes(s) == 0
  {
    if s != [] {
      assert s[0] in s;
      assert forall c <- s[1..] :: c in s;
      NoSlash(s[1..]);
    }
  }

  /** A separator followed by an encoded segment has the separator's `/`
      and none from the segment, which the encoder never writes. */
  lemma SegmentSlashes(sep: string, segment: string)
    requires IsFormSafe(segment)
    ensures Slashes(sep + segment) == Slashes(sep)
  {
    assert '/' !in segment;
    NoSlash(segment);
    SlashesConcat(sep, segment);
  }

  lemma OneSlash()
    ensures Slashes("/") == 1
  {
    assert "/"[1..] == "";
  }

  /** The fixed prefix of the report path holds one `/`. */
  lemma PrefixSlashes()
    ensures Slashes("deliveryReport/") == 1
  {
    var s := "deliveryReport/";
    assert forall j | 0 <= j < |s| - 1 :: s[j] != '/';
    OnlyLastSlash(s);
  }

  /** A string whose only `/` is its last character holds one. */
  lemma {:induction false} OnlyLastSlash(s: string)
    requires |s| >= 1 && s[|s| - 1] == '/'
    requires forall j | 0 <= j < |s| - 1 :: s[j] != '/'
    ensures Slashes(s) == 1
  {
    if |s| > 1 {
      assert s[1..][|s[1..]| - 1] == '/';
      OnlyLastSlash(s[1..]);
    }
  }

  /** The separator before a tag holds two. */
  lemma CustomSlashes()
    ensures Slashes("/custom/") == 2
  {
    OneSlash();
    NoSlash("custom");
    SlashesConcat("/", "custom");
    SlashesConcat("/" + "custom", "/");
    assert "/custom/" == "/" + "custom" + "/";
  }

  class RestClient {
    /** The environment flag: production when true, sandbox otherwise. */
    const production: bool
    /** The credentials and client identifier sent with every call. */
    const params: map<string, string>
    /** The reply text of the last successful call that keeps it. */
    var xmlResponse: Option<string>
    /** The errors of the last failed call. */
    var errors: map<string, string>
    /** The order in which `errors` hands out its entries; the code and the
        message of the last error are both read from its first entry. */
    var errorOrder: seq<string>

    /** `errorOrder` lists every key of the error table exactly once, and the
        client's own parameter names need no form encoding. */
    ghost predicate Valid()
      reads this
    {
      && Enumerates(errorOrder, errors)
      && (forall k <- params :: IsPlainKey(k))
    }

    /** `RestClient(username, password, env)`. */
    constructor (username: string, password: string, env: bool)
      ensures production == env && params == ClientParams(username, password)
      ensures xmlResponse == None && errors == map[]
      ensures Valid()
    {
      production := env;
      errors := map[];
      errorOrder := [];
      params := ClientParams(username, password);
      xmlResponse := None;
      ClientKeysArePlain(username, password);
    }

    /** `sent` is a request this client may send for `service` with the extra
        parameters `extra`: its own environment's URL, its own parameters
        followed by the extra ones, in some enumeration order of each table. */
    ghost predicate Sends(sent: Request, service: string, verb: HttpMethod, extra: map<string, string>) {
      exists q :: IsParamString(q, params, extra) && sent == RequestFor(production, service, verb, q)
    }

    /** The error-table update of `restGatewayCall` after a failure that read
        status `code` and error text `body`: the table is cleared, then for
        400 filled from the `error` elements of the body in order, stopping at
        the first one without a code, and otherwise given the one entry from
        the status to the text. */
    method RecordFailure(code: int32, body: string, parseXml: string -> Option<Document>)
      modifies this`errors, this`errorOrder
      ensures errors == StatusErrors(code, body, parseXml)
      ensures Enumerates(errorOrder, errors)
    {
      errors := map[];
      if code == 400 {
        var doc := parseXml(body);
        if doc.Some? {
          FillErrors(doc.value);
        }
      } else {
        errors := errors[IntToString(code) := body];
      }
      errorOrder := KeyOrder(errors);
    }

    /** The loop of `restGatewayCall` that fills the cleared table from the
        `error` elements of a 400 reply, stopping at the first one without a
        code. */
    method FillErrors(doc: Document)
      requires errors == map[]
      modifies this`errors
      ensures errors == ErrorTable(doc)
    {
      var errorsList := ElementsByTagName(doc, "error");
      var i := 0;
      while i < |errorsList|
        invariant 0 <= i <= FirstMissing(errorsList)
        invariant errors == CodeTable(errorsList[..i])
      {
        var errorCode := CodeOf(errorsList[i]);
        if errorCode.None? {
          break;
        }
        CodeTableSnoc(errorsList, i);
        errors := errors[errorCode.value := TextContent(errorsList[i])];
        i := i + 1;
      }
      assert i == FirstMissing(errorsList);
    }

    /** The two loops of `restGatewayCall` that write the client's
        parameters and then the extra ones into one string. */
    method ParamString(extra: map<string, string>) returns (query: string)
      ensures IsParamString(query, params, extra)
    {
      var own, order1 := AppendParams("", params);
      var all, order2 := AppendParams(own, extra);
      IsParamStringOf(all, params, extra, order1, order2);
      query := all;
    }

    /** `restGatewayCall(service, method, extraparams)`: builds the parameter
        string from the client's parameters and then the extra ones, sends it
        in the URL or as the body, and returns the reply; a failure updates
        the error table and fails. */
    method GatewayCall(service: string, verb: HttpMethod, extra: map<string, string>, p: Platform)
      returns (r: Result<string>, ghost sent: Request)
      requires Valid()
      modifies this`errors, this`errorOrder
      ensures Valid()
      ensures Sends(sent, service, verb, extra)
      ensures r == Answer(p.net(sent))
      ensures errors == ErrorsAfter(old(errors), p.net(sent), p.parseXml)
      ensures !RecordsErrors(p.net(sent)) ==> errorOrder == old(errorOrder)
    {
      var query := ParamString(extra);
      var request := RequestFor(production, service, verb, query);
      sent := request;
      var answer := p.net(request);
      match answer {
        case Ok(body) =>
          r := Success(body);
        case HttpFail(code, errorBody) =>
          if errorBody.Some? {
            RecordFailure(code, errorBody.value, p.parseXml);
          }
          r := Failure;
        case TransportFail =>
          r := Failure;
      }
    }

    /** `xmlResponse = restGatewayCall(...)`, the first step of every
        operation that keeps its reply. */
    method Fetch(service: string, verb: HttpMethod, extra: map<string, string>, p: Platform)
      returns (r: Result<string>, ghost sent: Request)
      requires Valid()
      modifies this`errors, this`errorOrder, this`xmlResponse
      ensures Valid()
      ensures Sends(sent, service, verb, extra)
      ensures r == Answer(p.net(sent))
      ensures xmlResponse == Kept(old(xmlResponse), p.net(sent))
      ensures errors == ErrorsAfter(old(errors), p.net(sent), p.parseXml)
      ensures !RecordsErrors(p.net(sent)) ==> errorOrder == old(errorOrder)
    {
      r, sent := GatewayCall(service, verb, extra, p);
      if r.Success? {
        xmlResponse := Some(r.value);
      }
    }

    /** `isLoginValid()`: a GET of `credits`; true when it succeeds, a failure
        otherwise. The reply is not kept. */
    method IsLoginValid(p: Platform) returns (r: Result<bool>, ghost sent: Request)
      requires Valid()
      modifies this`errors, this`errorOrder
      ensures Valid()
      ensures Sends(sent, "credits", Get, map[])
      ensures r.Success? <==> p.net(sent).Ok?
      ensures r.Success? ==> r.value
      ensures errors == ErrorsAfter(old(errors), p.net(sent), p.parseXml)
      ensures !RecordsErrors(p.net(sent)) ==> errorOrder == old(errorOrder)
    {
      var reply;
      reply, sent := GatewayCall("credits", Get, map[], p);
      if reply.Failure? {
        return Failure, sent;
      }
      r := Success(true);
    }

    /** `getCredits()`: a GET of `credits`, whose reply's first `credits`
        element holds the balance. */
    method GetCredits(p: Platform) returns (r: Result<int32>, ghost sent: Request)
      requires Valid()
      modifies this`errors, this`errorOrder, this`xmlResponse
      ensures Valid()
      ensures Sends(sent, "credits", Get, map[])
      ensures xmlResponse == Kept(old(xmlResponse), p.net(sent))
      ensures errors == ErrorsAfter(old(errors), p.net(sent), p.parseXml)
      ensures !RecordsErrors(p.net(sent)) ==> errorOrder == old(errorOrder)
      ensures r == (if p.net(sent).Ok? then CreditsReply(p.net(sent).body, p.parseXml) else Failure)
    {
      var reply;
      reply, sent := Fetch("credits", Get, map[], p);
      if reply.Failure? {
        return Failure, sent;
      }
      var doc := p.parseXml(reply.value);
      if doc.None? {
        return Failure, sent;
      }
      r := CreditsOf(doc.value);
    }

    /** `sendSMS(...)`, all eight arguments; the shorter overloads pass
        validity 0, no e-mail, no tag, no schedule and no check. A missing
        message, number or originator fails before anything is sent. */
    method SendSms(message: Option<string>, mobileNumber: Option<string>, originator: Option<string>,
                   validity: int32, email: Option<string>, custom: Option<string>,
                   schedule: Option<Date>, checkStop: bool, p: Platform)
      returns (r: Result<map<string, string>>, ghost sent: Option<Request>)
      requires Valid()
      modifies this`errors, this`errorOrder, this`xmlResponse
      ensures Valid()
      ensures SmsParams(message, mobileNumber, originator, validity, email, custom, schedule, checkStop,
                        p.formatDate).Failure? ==>
        r.Failure? && sent.None? && errors == old(errors) && errorOrder == old(errorOrder)
        && xmlResponse == old(xmlResponse)
      ensures SmsParams(message, mobileNumber, originator, validity, email, custom, schedule, checkStop,
                        p.formatDate).Success? ==>
        && sent.Some?
        && Sends(sent.value, "sms", Post,
                 SmsParams(message, mobileNumber, originator, validity, email, custom, schedule, checkStop,
                           p.formatDate).value)
        && xmlResponse == Kept(old(xmlResponse), p.net(sent.value))
        && errors == ErrorsAfter(old(errors), p.net(sent.value), p.parseXml)
        && (!RecordsErrors(p.net(sent.value)) ==> errorOrder == old(errorOrder))
        && r == (if p.net(sent.value).Ok? then Success(ResponseMap(xmlResponse, "", p.parseXml)) else Failure)
    {
      var extra := SmsParams(message, mobileNumber, originator, validity, email, custom, schedule, checkStop,
                             p.formatDate);
      if extra.Failure? {
        return Failure, None;
      }
      var reply;
      ghost var request;
      reply, request := Fetch("sms", Post, extra.value, p);
      sent := Some(request);
      if reply.Failure? {
        return Failure, sent;
      }
      var table := ParseResponseXml(xmlResponse, "", p.parseXml);
      r := Success(table);
    }

    /** `transferCreditsToAccount(quantity, target)`: a POST to `credits`. */
    method TransferCreditsToAccount(quantity: int32, target: Option<string>, p: Platform)
      returns (r: Result<map<string, string>>, ghost sent: Option<Request>)
      requires Valid()
      modifies this`errors, this`errorOrder, this`xmlResponse
      ensures Valid()
      ensures target.None? ==>
        r.Failure? && sent.None? && errors == old(errors) && errorOrder == old(errorOrder)
        && xmlResponse == old(xmlResponse)
      ensures target.Some? ==>
        && sent.Some?
        && Sends(sent.value, "credits", Post, TransferToAccountParams(quantity, target).value)
        && xmlResponse == Kept(old(xmlResponse), p.net(sent.value))
        && errors == ErrorsAfter(old(errors), p.net(sent.value), p.parseXml)
        && (!RecordsErrors(p.net(sent.value)) ==> errorOrder == old(errorOrder))
        && r == (if p.net(sent.value).Ok? then Success(ResponseMap(xmlResponse, "", p.parseXml)) else Failure)
    {
      var extra := TransferToAccountParams(quantity, target);
      if extra.Failure? {
        return Failure, None;
      }
      var reply;
      ghost var request;
      reply, request := Fetch("credits", Post, extra.value, p);
      sent := Some(request);
      if reply.Failure? {
        return Failure, sent;
      }
      var table := ParseResponseXml(xmlResponse, "", p.parseXml);
      r := Success(table);
    }

    /** `transferCreditsToUser(quantity, username, password)`: a POST to
        `credits`. */
    method TransferCreditsToUser(quantity: int32, targetUsername: Option<string>,
                                 targetPassword: Option<string>, p: Platform)
      returns (r: Result<map<string, string>>, ghost sent: Option<Request>)
      requires Valid()
      modifies this`errors, this`errorOrder, this`xmlResponse
      ensures Valid()
      ensures targetUsername.None? || targetPassword.None? ==>
        r.Failure? && sent.None? && errors == old(errors) && errorOrder == old(errorOrder)
        && xmlResponse == old(xmlResponse)
      ensures targetUsername.Some? && targetPassword.Some? ==>
        && sent.Some?
        && Sends(sent.value, "credits", Post,
                 TransferToUserParams(quantity, targetUsername, targetPassword).value)
        && xmlResponse == Kept(old(xmlResponse), p.net(sent.value))
        && errors == ErrorsAfter(old(errors), p.net(sent.value), p.parseXml)
        && (!RecordsErrors(p.net(sent.value)) ==> errorOrder == old(errorOrder))
        && r == (if p.net(sent.value).Ok? then Success(ResponseMap(xmlResponse, "", p.parseXml)) else Failure)
    {
      var extra := TransferToUserParams(quantity, targetUsername, targetPassword);
      if extra.Failure? {
        return Failure, None;
      }
      var reply;
      ghost var request;
      reply, request := Fetch("credits", Post, extra.value, p);
      sent := Some(request);
      if reply.Failure? {
        return Failure, sent;
      }
      var table := ParseResponseXml(xmlResponse, "", p.parseXml);
      r := Success(table);
    }

    /** `getKeyword(keyword)`: a GET of `keywords/<keyword>`. */
    method GetKeyword(keyword: string, p: Platform)
      returns (r: Result<map<string, string>>, ghost sent: Request)
      requires Valid()
      modifies this`errors, this`errorOrder, this`xmlResponse
      ensures Valid()
      ensures Sends(sent, "keywords/" + FormEncode(keyword), Get, map[])
      ensures xmlResponse == Kept(old(xmlResponse), p.net(sent))
      ensures errors == ErrorsAfter(old(errors), p.net(sent), p.parseXml)
      ensures !RecordsErrors(p.net(sent)) ==> errorOrder == old(errorOrder)
      ensures r == (if p.net(sent).Ok? then Success(ResponseMap(xmlResponse, "", p.parseXml)) else Failure)
    {
      var reply;
      reply, sent := Fetch("keywords/" + FormEncode(keyword), Get, map[], p);
      if reply.Failure? {
        return Failure, sent;
      }
      var table := ParseResponseXml(xmlResponse, "", p.parseXml);
      r := Success(table);
    }

    /** `getGroups()`: a GET of `groups`, one attribute table per `group`
        element. */
    method GetGroups(p: Platform) returns (r: Result<array<map<string, string>>>, ghost sent: Request)
      requires Valid()
      modifies this`errors, this`errorOrder, this`xmlResponse
      ensures Valid()
      ensures Sends(sent, "groups", Get, map[])
      ensures xmlResponse == Kept(old(xmlResponse), p.net(sent))
      ensures errors == ErrorsAfter(old(errors), p.net(sent), p.parseXml)
      ensures !RecordsErrors(p.net(sent)) ==> errorOrder == old(errorOrder)
      ensures r.Success? <==> p.net(sent).Ok?
      ensures r.Success? ==> fresh(r.value) && r.value[..] == ResponseGroups(p.net(sent).body, "group", p.parseXml)
    {
      var reply;
      reply, sent := Fetch("groups", Get, map[], p);
      if reply.Failure? {
        return Failure, sent;
      }
      var groups := ParseResponseGroupsXml(reply.value, "group", p.parseXml);
      r := Success(groups);
    }

    /** `getGroup(group)`: a GET of `group/<group>`, the text of every
        `number` element; an unparsable reply is a failure. */
    method GetGroup(group: string, p: Platform) returns (r: Result<array<string>>, ghost sent: Request)
      requires Valid()
      modifies this`errors, this`errorOrder, this`xmlResponse
      ensures Valid()
      ensures Sends(sent, "group/" + FormEncode(group), Get, map[])
      ensures xmlResponse == Kept(old(xmlResponse), p.net(sent))
      ensures errors == ErrorsAfter(old(errors), p.net(sent), p.parseXml)
      ensures !RecordsErrors(p.net(sent)) ==> errorOrder == old(errorOrder)
      ensures r.Success? <==> p.net(sent).Ok? && p.parseXml(p.net(sent).body).Some?
      ensures r.Success? ==> fresh(r.value) && r.value[..] == NumbersOf(p.parseXml(p.net(sent).body).value)
    {
      var reply;
      reply, sent := Fetch("group/" + FormEncode(group), Get, map[], p);
      if reply.Failure? {
        return Failure, sent;
      }
      var doc := p.parseXml(reply.value);
      if doc.None? {
        return Failure, sent;
      }
      var numbers := NumberTexts(doc.value);
      r := Success(numbers);
    }

    /** `addNumbersToGroup(group, numbers)`: a POST to `group/<group>`, whose
        reply's first `added` element holds the count in its first
        attribute. Missing numbers fail before anything is sent. */
    method AddNumbersToGroup(group: string, numbers: Option<string>, p: Platform)
      returns (r: Result<int32>, ghost sent: Option<Request>)
      requires Valid()
      modifies this`errors, this`errorOrder, this`xmlResponse
      ensures Valid()
      ensures numbers.None? ==>
        r.Failure? && sent.None? && errors == old(errors) && errorOrder == old(errorOrder)
        && xmlResponse == old(xmlResponse)
      ensures numbers.Some? ==>
        && sent.Some?
        && Sends(sent.value, "group/" + FormEncode(group), Post, map["numbers" := numbers.value])
        && xmlResponse == Kept(old(xmlResponse), p.net(sent.value))
        && errors == ErrorsAfter(old(errors), p.net(sent.value), p.parseXml)
        && (!RecordsErrors(p.net(sent.value)) ==> errorOrder == old(errorOrder))
        && r == (if p.net(sent.value).Ok? then AddedReply(p.net(sent.value).body, p.parseXml) else Failure)
    {
      if numbers.None? {
        return Failure, None;
      }
      var reply;
      ghost var request;
      reply, request := Fetch("group/" + FormEncode(group), Post, map["numbers" := numbers.value], p);
      sent := Some(request);
      if reply.Failure? {
        return Failure, sent;
      }
      var doc := p.parseXml(reply.value);
      if doc.None? {
        return Failure, sent;
      }
      r := AddedCountOf(doc.value);
    }

    /** `addGroup(group)`: a PUT of `group/<group>`; true when it succeeds. */
    method AddGroup(group: string, p: Platform) returns (r: Result<bool>, ghost sent: Request)
      requires Valid()
      modifies this`errors, this`errorOrder, this`xmlResponse
      ensures Valid()
      ensures Sends(sent, "group/" + FormEncode(group), Put, map[])
      ensures xmlResponse == Kept(old(xmlResponse), p.net(sent))
      ensures errors == ErrorsAfter(old(errors), p.net(sent), p.parseXml)
      ensures !RecordsErrors(p.net(sent)) ==> errorOrder == old(errorOrder)
      ensures r.Success? <==> p.net(sent).Ok?
      ensures r.Success? ==> r.value
    {
      var reply;
      reply, sent := Fetch("group/" + FormEncode(group), Put, map[], p);
      if reply.Failure? {
        return Failure, sent;
      }
      r := Success(true);
    }

    /** `getDeliveryReports()`: a GET of `deliveryReports`, the name of every
        `report` element. */
    method GetDeliveryReports(p: Platform) returns (r: Result<array<string>>, ghost sent: Request)
      requires Valid()
      modifies this`errors, this`errorOrder, this`xmlResponse
      ensures Valid()
      ensures Sends(sent, "deliveryReports", Get, map[])
      ensures xmlResponse == Kept(old(xmlResponse), p.net(sent))
      ensures errors == ErrorsAfter(old(errors), p.net(sent), p.parseXml)
      ensures !RecordsErrors(p.net(sent)) ==> errorOrder == old(errorOrder)
      ensures r.Success? <==>
        && p.net(sent).Ok? && p.parseXml(p.net(sent).body).Some?
        && ReportNames(ElementsByTagName(p.parseXml(p.net(sent).body).value, "report")).Some?
      ensures r.Success? ==>
        && fresh(r.value)
        && r.value[..] == ReportNames(ElementsByTagName(p.parseXml(p.net(sent).body).value, "report")).value
    {
      var reply;
      reply, sent := Fetch("deliveryReports", Get, map[], p);
      if reply.Failure? {
        return Failure, sent;
      }
      var doc := p.parseXml(reply.value);
      if doc.None? {
        return Failure, sent;
      }
      r := ReportNameList(doc.value);
    }

    /** `getDeliveryReport(name[, custom][, start, end])`: a GET of the
        report's path, decoded into new `DeliveryReport` objects. */
    method GetDeliveryReport(name: string, custom: Option<string>, range: Option<(Date, Date)>, p: Platform)
      returns (r: Result<array<DeliveryReport>>, ghost sent: Request)
      requires Valid()
      modifies this`errors, this`errorOrder, this`xmlResponse
      ensures Valid()
      ensures Sends(sent, ReportService(name, custom, range, p.formatDate), Get, map[])
      ensures xmlResponse == Kept(old(xmlResponse), p.net(sent))
      ensures errors == ErrorsAfter(old(errors), p.net(sent), p.parseXml)
      ensures !RecordsErrors(p.net(sent)) ==> errorOrder == old(errorOrder)
      ensures r.Success? <==>
        p.net(sent).Ok? && DeliveryReportsOf(p.net(sent).body, p.parseXml, p.parseDate).Some?
      ensures r.Success? ==>
        && fresh(r.value)
        && r.value.Length == |DeliveryReportsOf(p.net(sent).body, p.parseXml, p.parseDate).value|
        && forall i | 0 <= i < r.value.Length ::
             fresh(r.value[i])
             && r.value[i].Value() == DeliveryReportsOf(p.net(sent).body, p.parseXml, p.parseDate).value[i]
    {
      var reply;
      reply, sent := Fetch(ReportService(name, custom, range, p.formatDate), Get, map[], p);
      if reply.Failure? {
        return Failure, sent;
      }
      r := ParseDeliveryReport(reply.value, p.parseXml, p.parseDate);
    }

    /** `createSubAccount(...)`: a POST to `account/sub`, whose reply is read
        from its `account` element. A missing company name fails before
        anything is sent. */
    method CreateSubAccount(companyName: Option<string>, notificationMobile: Option<string>,
                            notificationEmail: Option<string>, username: Option<string>,
                            password: Option<string>, promoCode: Option<string>, overrideRates: bool,
                            p: Platform)
      returns (r: Result<map<string, string>>, ghost sent: Option<Request>)
      requires Valid()
      modifies this`errors, this`errorOrder, this`xmlResponse
      ensures Valid()
      ensures companyName.None? ==>
        r.Failure? && sent.None? && errors == old(errors) && errorOrder == old(errorOrder)
        && xmlResponse == old(xmlResponse)
      ensures companyName.Some? ==>
        && sent.Some?
        && Sends(sent.value, "account/sub", Post,
                 SubAccountParams(companyName, notificationMobile, notificationEmail, username,
                                  password, promoCode, overrideRates).value)
        && xmlResponse == Kept(old(xmlResponse), p.net(sent.value))
        && errors == ErrorsAfter(old(errors), p.net(sent.value), p.parseXml)
        && (!RecordsErrors(p.net(sent.value)) ==> errorOrder == old(errorOrder))
        && r == (if p.net(sent.value).Ok? then Success(ResponseMap(xmlResponse, "account", p.parseXml))
                 else Failure)
    {
      var extra := SubAccountParams(companyName, notificationMobile, notificationEmail, username,
                                    password, promoCode, overrideRates);
      if extra.Failure? {
        return Failure, None;
      }
      var reply;
      ghost var request;
      reply, request := Fetch("account/sub", Post, extra.value, p);
      sent := Some(request);
      if reply.Failure? {
        return Failure, sent;
      }
      var table := ParseResponseXml(xmlResponse, "account", p.parseXml);
      r := Success(table);
    }

    /** `deleteSMS(scheduledId)`: a DELETE of `sms/<scheduledId>`. */
    method DeleteSms(scheduledId: string, p: Platform)
      returns (r: Result<map<string, string>>, ghost sent: Request)
      requires Valid()
      modifies this`errors, this`errorOrder, this`xmlResponse
      ensures Valid()
      ensures Sends(sent, "sms/" + FormEncode(scheduledId), Delete, map[])
      ensures xmlResponse == Kept(old(xmlResponse), p.net(sent))
      ensures errors == ErrorsAfter(old(errors), p.net(sent), p.parseXml)
      ensures !RecordsErrors(p.net(sent)) ==> errorOrder == old(errorOrder)
      ensures r == (if p.net(sent).Ok? then Success(ResponseMap(xmlResponse, "", p.parseXml)) else Failure)
    {
      var reply;
      reply, sent := Fetch("sms/" + FormEncode(scheduledId), Delete, map[], p);
      if reply.Failure? {
        return Failure, sent;
      }
      var table := ParseResponseXml(xmlResponse, "", p.parseXml);
      r := Success(table);
    }

    /** `getXML()`: the reply text last kept, `None` before any. */
    method GetXml() returns (xml: Option<string>)
      ensures xml == xmlResponse
    {
      xml := xmlResponse;
    }

    /** `getLastErrorCode()`: 0 when there are no errors; otherwise the key of
        the entry the table hands out first, read as a Java `int`, which fails
        when the key is not a number. */
    method GetLastErrorCode() returns (r: Result<int32>)
      requires Valid()
      ensures errors == map[] ==> r == Success(0)
      ensures errors != map[] ==>
        |errorOrder| > 0 && errorOrder[0] in errors && r == OrFail(ParseInt(errorOrder[0]))
    {
      if errors == map[] {
        return Success(0);
      }
      FirstKeyExists(errorOrder, errors);
      r := OrFail(ParseInt(errorOrder[0]));
    }

    /** `getLastErrorMessage()`: "" when there are no errors; otherwise the
        message of the entry the table hands out first, the same entry whose
        key `getLastErrorCode` reads. */
    method GetLastErrorMessage() returns (message: string)
      requires Valid()
      ensures errors == map[] ==> message == ""
      ensures errors != map[] ==> |errorOrder| > 0 && errorOrder[0] in errors && message == errors[errorOrder[0]]
    {
      if errors == map[] {
        return "";
      }
      FirstKeyExists(errorOrder, errors);
      message := errors[errorOrder[0]];
    }

    /** `getLastErrors()`: the whole table. */
    method GetLastErrors() returns (table: map<string, string>)
      ensures table == errors
    {
      table := errors;
    }
  }

  /** A table with an entry has a first entry to hand out. */
  lemma FirstKeyExists(order: seq<string>, m: map<string, string>)
    requires Enumerates(order, m) && m != map[]
    ensures |order| > 0 && order[0] in m
  {
    var k :| k in m;
    assert k in order;
  }

  /** The first two entries a table hands out are two different keys. */
  lemma FirstTwoKeys(order: seq<string>, m: map<string, string>)
    requires Enumerates(order, m) && |order| > 1
    ensures order[0] != order[1] && order[0] in m && order[1] in m
  {
    assert order[0] in order && order[1] in order;
  }

  /** After a failure with any status but 400, the table hands out exactly
      one entry, so the last error code is the status and the last error
      message the error text. */
  lemma StatusErrorOrder(code: int32, body: string, parseXml: string -> Option<Document>, order: seq<string>)
    requires code != 400
    requires Enumerates(order, StatusErrors(code, body, parseXml))
    ensures order == [IntToString(code)]
    ensures OrFail(ParseInt(order[0])) == Success(code)
    ensures StatusErrors(code, body, parseXml)[order[0]] == body
  {
    var key := IntToString(code);
    assert key in StatusErrors(code, body, parseXml);
    assert key in order;
    assert forall k <- order :: k == key;
    if |order| > 1 {
      FirstTwoKeys(order, StatusErrors(code, body, parseXml));
      assert false;
    }
    ParseIntToString(code);
  }

  /** Every request a client sends goes to the base URL of the environment
      it was made for, whatever the operation. */
  lemma SendsToOwnEnvironment(c: RestClient, sent: Request, service: string, verb: HttpMethod,
                              extra: map<string, string>)
    requires c.Sends(sent, service, verb, extra)
    ensures IsPrefix(ProdUrl, sent.url) <==> c.production
    ensures IsPrefix(SandUrl, sent.url) <==> !c.production
  {
    var q :| IsParamString(q, c.params, extra) && sent == RequestFor(c.production, service, verb, q);
    RequestForShape(c.production, service, verb, q);
  }

  /** The client's own keys are plain, so they read back unchanged. */
  lemma ClientKeysArePlain(username: string, password: string)
    ensures forall k <- ClientParams(username, password) :: IsPlainKey(k)
  {
    assert forall k <- ClientParams(username, password) :: k == "password" || k == "username" || k == "apiClient";
  }

  /** A POST carries its whole parameter string as an ASCII body whose
      announced Content-Length is its length, and the gateway reads that body
      back as the client's parameters followed by the extra ones, every value
      as given. Every valid client meets the requirement on its own keys. */
  lemma PostBodyReadsBack(c: RestClient, sent: Request, service: string, extra: map<string, string>)
    requires c.Sends(sent, service, Post, extra)
    requires forall k <- c.params :: IsPlainKey(k)
    requires forall k <- extra :: IsPlainKey(k)
    ensures sent.body.Some? && sent.url == BaseUrl(c.production) + service
    ensures sent.body.value.contentType == FormContentType
    ensures sent.body.value.contentLength == |sent.body.value.data|
    ensures exists o1, o2 ::
      (Enumerates(o1, c.params) && Enumerates(o2, extra)
       && SplitFields(sent.body.value.data) == Some(Entries(c.params, o1) + Entries(extra, o2)))
  {
    var q :| IsParamString(q, c.params, extra) && sent == RequestFor(c.production, service, Post, q);
    ParamStringReadsBack(q, c.params, extra);
    ContentLengthOfAscii(c.production, service, q);
  }
}
