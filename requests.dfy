/** Building a request: the base URL picked by the environment flag, the
    parameter string `key=value&key=value&...` with every value form-encoded,
    and where that string goes (query for GET, PUT and DELETE; body for POST).
    Also the per-operation parameter tables and their input normalisation. */
module Requests {
  import opened Wrappers
  import opened JavaText
  import opened FormEncoding
  import opened Reports

  const RestPath: string := "textmarketer.co.uk/services/rest/"
  const ProdUrl: string := "https://api." + RestPath
  const SandUrl: string := "http://sandbox.api." + RestPath
  const ApiClient: string := "tm-java-"
  const Version: string := "1.4"
  const FormContentType: string := "application/x-www-form-urlencoded"

  datatype HttpMethod = Get | Post | Put | Delete

  /** What goes on the wire for a POST: the headers it sets and the data. */
  datatype Body = Body(contentType: string, contentLength: nat, data: string)

  datatype Request = Request(verb: HttpMethod, url: string, body: Option<Body>)

  predicate IsPrefix(p: string, s: string) {
    |p| <= |s| && s[..|p|] == p
  }

  /** The base URL of the environment: production or sandbox. */
  function BaseUrl(production: bool): string {
    if production then ProdUrl else SandUrl
  }

  /** The request for `service` carrying the parameter string `query`: the
      string follows a `?` in the URL for GET, PUT and DELETE, and is the
      form-encoded body of a POST, whose Content-Length is its byte count. */
  function RequestFor(production: bool, service: string, verb: HttpMethod, query: string): (r: Request)
    ensures r.verb == verb
    ensures r.body.Some? <==> verb == Post
    ensures r.body.Some? ==>
      r.body.value.contentType == FormContentType && r.body.value.contentLength == |Utf8Encode(r.body.value.data)|
  {
    if verb == Post then
      Request(Post, BaseUrl(production) + service,
              Some(Body(FormContentType, |Utf8Encode(query)|, query)))
    else
      Request(verb, BaseUrl(production) + service + "?" + query, None)
  }

  /** Every request goes to the production base URL exactly when the client
      was made for production, and to the sandbox one otherwise; the query
      string is in the URL exactly when there is no body, and whichever of the
      two carries it carries it whole. */
  lemma RequestForShape(production: bool, service: string, verb: HttpMethod, query: string)
    ensures var r := RequestFor(production, service, verb, query);
      && (IsPrefix(ProdUrl, r.url) <==> production)
      && (IsPrefix(SandUrl, r.url) <==> !production)
      && r.verb == verb
      && (r.body.Some? <==> verb == Post)
      && (verb == Post ==> r.url == BaseUrl(production) + service && r.body.value.data == query)
      && (verb != Post ==> r.url == BaseUrl(production) + service + "?" + query)
  {
    var r := RequestFor(production, service, verb, query);
    assert ProdUrl[4] == 's' && SandUrl[4] == ':';
    if production {
      assert r.url[..|ProdUrl|] == ProdUrl;
      assert r.url[4] == 's';
    } else {
      assert r.url[..|SandUrl|] == SandUrl;
      assert r.url[4] == ':';
    }
  }

  /** A POST announces as its Content-Length the number of characters of its
      body whenever that body is ASCII, which every parameter string is. */
  lemma ContentLengthOfAscii(production: bool, service: string, query: string)
    requires IsAscii(query)
    ensures RequestFor(production, service, Post, query).body.value.contentLength == |query|
  {
    AsciiUtf8Length(query);
  }

  // --------------------------------------------------------- parameter string

  /** One parameter as the client writes it: key, `=`, encoded value, `&`. */
  function Field(key: string, value: string): string {
    key + "=" + FormEncode(value) + "&"
  }

  /** The parameter string of a list of key/value pairs. */
  function Join(ps: seq<(string, string)>): string {
    if ps == [] then "" else Field(ps[0].0, ps[0].1) + Join(ps[1..])
  }

  /** The pairs of `m` in the order `ks` lists its keys. */
  function Entries(m: map<string, string>, ks: seq<string>): (ps: seq<(string, string)>)
    requires forall k <- ks :: k in m
    ensures |ps| == |ks|
    ensures forall i | 0 <= i < |ks| :: ps[i] == (ks[i], m[ks[i]])
  {
    if ks == [] then [] else [(ks[0], m[ks[0]])] + Entries(m, ks[1..])
  }

  /** `ks` lists every key of `m` exactly once: one of the orders in which a
      Hashtable may hand out its entries. */
  ghost predicate Enumerates(ks: seq<string>, m: map<string, string>) {
    && (forall k <- ks :: k in m)
    && (forall k <- m :: k in ks)
    && (forall i, j | 0 <= i < j < |ks| :: ks[i] != ks[j])
  }

  /** The parameter strings the client may send for its own parameters
      `client` followed by the call's `extra` ones, one per pair of
      enumeration orders. */
  ghost predicate IsParamString(q: string, client: map<string, string>, extra: map<string, string>) {
    exists o1: seq<string>, o2: seq<string> ::
      && Enumerates(o1, client) && Enumerates(o2, extra)
      && q == Join(Entries(client, o1) + Entries(extra, o2))
  }

  lemma {:induction false} JoinConcat(a: seq<(string, string)>, b: seq<(string, string)>)
    ensures Join(a + b) == Join(a) + Join(b)
  {
    if a == [] {
      assert a + b == b;
    } else {
      assert (a + b)[0] == a[0] && (a + b)[1..] == a[1..] + b;
      JoinConcat(a[1..], b);
    }
  }

  /** A string written from `client` in the order `o1` and then from `extra`
      in the order `o2` is a parameter string of the two. */
  lemma IsParamStringOf(q: string, client: map<string, string>, extra: map<string, string>,
                        o1: seq<string>, o2: seq<string>)
    requires Enumerates(o1, client) && Enumerates(o2, extra)
    requires q == "" + Join(Entries(client, o1)) + Join(Entries(extra, o2))
    ensures IsParamString(q, client, extra)
  {
    var e1 := Entries(client, o1);
    var e2 := Entries(extra, o2);
    JoinConcat(e1, e2);
    assert "" + Join(e1) == Join(e1);
    assert q == Join(e1 + e2);
    assert Enumerates(o1, client) && Enumerates(o2, extra) && q == Join(Entries(client, o1) + Entries(extra, o2));
  }

  lemma EntriesSnoc(m: map<string, string>, ks: seq<string>, k: string)
    requires forall k' <- ks :: k' in m
    requires k in m
    ensures Join(Entries(m, ks + [k])) == Join(Entries(m, ks)) + Field(k, m[k])
  {
    assert Entries(m, ks + [k]) == Entries(m, ks) + [(k, m[k])];
    JoinConcat(Entries(m, ks), [(k, m[k])]);
  }

  /** Part way through a table: `order` lists the keys of `m` written so far,
      each once, and `rest` the keys still to write. */
  ghost predicate PartlyEnumerated(order: seq<string>, rest: set<string>, m: map<string, string>) {
    && rest <= m.Keys
    && (forall k <- order :: k in m && k !in rest)
    && (forall k <- m :: k in order || k in rest)
    && (forall i, j | 0 <= i < j < |order| :: order[i] != order[j])
  }

  /** Writing one more of the remaining keys keeps the enumeration partial:
      no key is written twice and none is lost. */
  lemma EnumerationStep(order: seq<string>, rest: set<string>, m: map<string, string>, key: string)
    requires PartlyEnumerated(order, rest, m) && key in rest
    ensures PartlyEnumerated(order + [key], rest - {key}, m)
  {
    var next := order + [key];
    forall i, j | 0 <= i < j < |next|
      ensures next[i] != next[j]
    {
      if j == |order| {
        assert next[i] in order;
      } else {
        assert next[i] == order[i] && next[j] == order[j];
      }
    }
  }

  /** The loop at the heart of the request builder: appends
      `key=encode(value)&` for every entry of `m`, in whatever order the
      table hands the keys out, and reports that order. */
  method AppendParams(buffer: string, m: map<string, string>)
    returns (out: string, ghost order: seq<string>)
    ensures Enumerates(order, m)
    ensures out == buffer + Join(Entries(m, order))
  {
    out := buffer;
    order := [];
    var rest := m.Keys;
    while rest != {}
      invariant PartlyEnumerated(order, rest, m)
      invariant out == buffer + Join(Entries(m, order))
      decreases |rest|
    {
      var key :| key in rest;
      EnumerationStep(order, rest, m, key);
      EntriesSnoc(m, order, key);
      out := out + Field(key, m[key]);
      order := order + [key];
      rest := rest - {key};
    }
  }

  /** The order in which a table hands out its entries, as its iterator
      does: every key once, in some order the program does not choose. */
  method KeyOrder(m: map<string, string>) returns (order: seq<string>)
    ensures Enumerates(order, m)
  {
    order := [];
    var rest := m.Keys;
    while rest != {}
      invariant PartlyEnumerated(order, rest, m)
      decreases |rest|
    {
      var key :| key in rest;
      EnumerationStep(order, rest, m, key);
      order := order + [key];
      rest := rest - {key};
    }
  }

  // ------------------------------------------- reading a parameter string back

  /** A key the client sends: letters, digits and `_` only (so no `&` and no
      `=`). */
  predicate IsPlainKey(k: string) {
    forall c <- k :: IsUnreserved(c) && c != '.' && c != '-' && c != '*'
  }

  function IndexOf(s: string, c: char): (r: Option<nat>)
    ensures r.Some? ==> r.value < |s| && s[r.value] == c && c !in s[..r.value]
    ensures r.None? ==> c !in s
  {
    if s == [] then None
    else if s[0] == c then Some(0)
    else
      match IndexOf(s[1..], c)
      case None => None
      case Some(i) => Some(i + 1)
  }

  /** How the gateway splits a parameter string: up to each `&` one field,
      up to its first `=` the key, the rest the encoded value. */
  function SplitFields(q: string): Option<seq<(string, string)>>
    decreases |q|
  {
    if q == [] then Some([])
    else
      match IndexOf(q, '&')
      case None => None
      case Some(amp) =>
        var field := q[..amp];
        match IndexOf(field, '=')
        case None => None
        case Some(eq) =>
          match FormDecode(field[eq + 1..])
          case None => None
          case Some(value) =>
            match SplitFields(q[amp + 1..])
            case None => None
            case Some(rest) => Some([(field[..eq], value)] + rest)
  }

  lemma IndexOfAfter(a: string, c: char, b: string)
    requires c !in a
    ensures IndexOf(a + [c] + b, c) == Some(|a|)
  {
    if a != [] {
      assert (a + [c] + b)[1..] == a[1..] + [c] + b;
      IndexOfAfter(a[1..], c, b);
    }
  }

  lemma SplitField(key: string, value: string, rest: string)
    requires IsPlainKey(key)
    ensures SplitFields(Field(key, value) + rest)
      == (match SplitFields(rest) case None => None case Some(ps) => Some([(key, value)] + ps))
  {
    var enc := FormEncode(value);
    var q := Field(key, value) + rest;
    var field := key + "=" + enc;
    assert forall c <- key :: IsUnreserved(c);
    assert '&' !in field;
    assert q == field + ['&'] + rest;
    IndexOfAfter(field, '&', rest);
    assert q[..|field|] == field;
    assert field == key + ['='] + enc;
    IndexOfAfter(key, '=', enc);
    assert field[|key| + 1..] == enc;
    assert field[..|key|] == key;
    FormRoundTrip(value);
    assert q[|field| + 1..] == rest;
  }

  /** Splitting on `&` and `=` and decoding each value gives back exactly the
      pairs that were joined, in order, whatever the values hold. */
  lemma {:induction false} SplitJoin(ps: seq<(string, string)>)
    requires forall p <- ps :: IsPlainKey(p.0)
    ensures SplitFields(Join(ps)) == Some(ps)
  {
    if ps != [] {
      assert ps[0] in ps;
      SplitJoin(ps[1..]);
      SplitField(ps[0].0, ps[0].1, Join(ps[1..]));
      assert [ps[0]] + ps[1..] == ps;
    }
  }

  /** A parameter string over plain keys is ASCII (so its Content-Length is
      its length). */
  lemma {:induction false} JoinIsAscii(ps: seq<(string, string)>)
    requires forall p <- ps :: IsPlainKey(p.0)
    ensures IsAscii(Join(ps))
  {
    if ps != [] {
      assert ps[0] in ps;
      JoinIsAscii(ps[1..]);
      var k := ps[0].0;
      assert forall c <- k :: c as int < 0x80;
      assert IsAscii(FormEncode(ps[0].1));
    }
  }

  /** Whatever order the tables are enumerated in, a parameter string reads
      back as the client parameters, each once, followed by the extra ones,
      each once, every value exactly as given. */
  lemma ParamStringReadsBack(q: string, client: map<string, string>, extra: map<string, string>)
    requires IsParamString(q, client, extra)
    requires forall k <- client :: IsPlainKey(k)
    requires forall k <- extra :: IsPlainKey(k)
    ensures IsAscii(q)
    ensures exists o1, o2 ::
      (Enumerates(o1, client) && Enumerates(o2, extra)
       && SplitFields(q) == Some(Entries(client, o1) + Entries(extra, o2)))
  {
    var o1, o2 :| Enumerates(o1, client) && Enumerates(o2, extra)
      && q == Join(Entries(client, o1) + Entries(extra, o2));
    var ps := Entries(client, o1) + Entries(extra, o2);
    EntriesPlain(client, o1);
    EntriesPlain(extra, o2);
    assert forall p <- ps :: p in Entries(client, o1) || p in Entries(extra, o2);
    SplitJoin(ps);
    JoinIsAscii(ps);
  }

  lemma EntriesPlain(m: map<string, string>, ks: seq<string>)
    requires forall k <- ks :: k in m
    requires forall k <- m :: IsPlainKey(k)
    ensures forall p <- Entries(m, ks) :: IsPlainKey(p.0)
  {
    var ps := Entries(m, ks);
    forall p <- ps
      ensures IsPlainKey(p.0)
    {
      var i :| 0 <= i < |ps| && ps[i] == p;
      assert p.0 == ks[i];
    }
  }

  // ----------------------------------------------- per-operation parameter tables

  /** The client's own parameters, fixed at construction. */
  function ClientParams(username: string, password: string): (m: map<string, string>)
    ensures m.Keys == {"password", "username", "apiClient"}
    ensures m["username"] == username && m["password"] == password
    ensures m["apiClient"] == "tm-java-1.4"
  {
    map["password" := password, "username" := username, "apiClient" := ApiClient + Version]
  }

  /** `sendSMS`'s validity window: anything outside 1..72 hours becomes 72. */
  function Validity(hours: int32): (h: int32)
    ensures 1 <= h <= 72
    ensures 1 <= hours <= 72 ==> h == hours
    ensures !(1 <= hours <= 72) ==> h == 72
  {
    if hours < 1 || hours > 72 then 72 else hours
  }

  /** The parameters of `sendSMS`. A missing message, number or originator
      is refused by the table (Hashtable rejects null values); a missing
      e-mail or custom tag is sent as the empty string; the schedule is sent,
      formatted by `formatDate`, only when there is one. */
  function SmsParams(message: Option<string>, mobileNumber: Option<string>, originator: Option<string>,
                     validity: int32, email: Option<string>, custom: Option<string>,
                     schedule: Option<Date>, checkStop: bool, formatDate: Date -> string)
    : (r: Result<map<string, string>>)
    ensures r.Success? <==> message.Some? && mobileNumber.Some? && originator.Some?
  {
    if message.None? || mobileNumber.None? || originator.None? then Failure
    else
      var always := map["message" := message.value, "mobile_number" := mobileNumber.value,
                        "originator" := originator.value,
                        "validity" := IntToString(Validity(validity)),
                        "email" := email.GetOr(""), "custom" := custom.GetOr(""),
                        "check_stop" := BoolToString(checkStop)];
      Success(if schedule.Some? then always["schedule" := formatDate(schedule.value)] else always)
  }

  const SmsKeys: set<string> :=
    {"message", "mobile_number", "originator", "validity", "email", "custom", "check_stop"}

  /** `sendSMS` fails exactly when a mandatory field is missing; otherwise it
      sends exactly its seven fields plus `schedule` when there is one, the
      validity read back by the gateway is always within 1..72 (and is the
      caller's when that was), and a missing e-mail or tag is sent empty. */
  lemma SmsParamsSpec(message: Option<string>, mobileNumber: Option<string>, originator: Option<string>,
                      validity: int32, email: Option<string>, custom: Option<string>,
                      schedule: Option<Date>, checkStop: bool, formatDate: Date -> string)
    ensures var r := SmsParams(message, mobileNumber, originator, validity, email, custom,
                               schedule, checkStop, formatDate);
      && (r.Success? <==> message.Some? && mobileNumber.Some? && originator.Some?)
      && (r.Success? ==>
            && r.value.Keys == SmsKeys + (if schedule.Some? then {"schedule"} else {})
            && r.value["message"] == message.value
            && r.value["mobile_number"] == mobileNumber.value
            && r.value["originator"] == originator.value
            && ParseInt(r.value["validity"]) == Some(Validity(validity))
            && r.value["email"] == (if email.Some? then email.value else "")
            && r.value["custom"] == (if custom.Some? then custom.value else "")
            && r.value["check_stop"] == BoolToString(checkStop)
            && (schedule.Some? ==> r.value["schedule"] == formatDate(schedule.value)))
  {
    ParseIntToString(Validity(validity));
  }

  /** The short `sendSMS(message, number, originator)` overload passes
      validity 0, which goes out as 72, and no e-mail or tag, which go out
      empty, with `check_stop` false and no schedule. */
  lemma SmsDefaults(message: string, mobileNumber: string, originator: string, formatDate: Date -> string)
    ensures var r := SmsParams(Some(message), Some(mobileNumber), Some(originator), 0, None, None, None,
                               false, formatDate);
      && r.Success? && r.value.Keys == SmsKeys
      && r.value["validity"] == "72" && r.value["email"] == "" && r.value["custom"] == ""
      && r.value["check_stop"] == "false"
  {
    assert IntToString(72) == NatToString(72);
    assert NatToString(72) == NatToString(7) + [DigitChar(2)];
  }

  /** The parameters of `createSubAccount`: the company name (refused when
      missing), each optional field only when given, and whether to carry the
      main account's prices over. */
  function SubAccountParams(companyName: Option<string>, notificationMobile: Option<string>,
                            notificationEmail: Option<string>, username: Option<string>,
                            password: Option<string>, promoCode: Option<string>, overrideRates: bool)
    : (r: Result<map<string, string>>)
    ensures r.Success? <==> companyName.Some?
  {
    if companyName.None? then Failure
    else
      var required := map["company_name" := companyName.value];
      var optional :=
        PutIfPresent(PutIfPresent(PutIfPresent(PutIfPresent(PutIfPresent(required,
          "notification_mobile", notificationMobile),
          "notification_email", notificationEmail),
          "account_username", username),
          "account_password", password),
          "promo_code", promoCode);
      Success(optional["override_pricing" := BoolToString(overrideRates)])
  }

  /** `if (value != null) table.put(key, value)`. */
  function PutIfPresent(m: map<string, string>, key: string, value: Option<string>)
    : map<string, string>
  {
    if value.Some? then m[key := value.value] else m
  }

  /** The key is added, with its value, exactly when the optional argument is
      present; every other entry stays as it was. */
  lemma PutIfPresentSpec(m: map<string, string>, key: string, value: Option<string>)
    ensures PutIfPresent(m, key, value).Keys == m.Keys + (if value.Some? then {key} else {})
    ensures forall k <- PutIfPresent(m, key, value) ::
      PutIfPresent(m, key, value)[k] == if k == key && value.Some? then value.value else m[k]
  {
  }

  /** The keys `createSubAccount` may send are pairwise different. */
  lemma SubAccountKeysDistinct()
    ensures "company_name" !in {"notification_mobile", "notification_email", "account_username",
                                "account_password", "promo_code", "override_pricing"}
    ensures "notification_mobile" !in {"notification_email", "account_username", "account_password",
                                       "promo_code", "override_pricing"}
    ensures "notification_email" !in {"account_username", "account_password", "promo_code", "override_pricing"}
    ensures "account_username" !in {"account_password", "promo_code", "override_pricing"}
    ensures "account_password" !in {"promo_code", "override_pricing"}
    ensures "promo_code" != "override_pricing"
  {
    assert "notification_mobile"[13] != "notification_email"[13];
    assert "account_username"[8] != "account_password"[8];
  }

  /** `{key}` when the optional argument is present, nothing otherwise. */
  function KeyIf(key: string, value: Option<string>): set<string> {
    if value.Some? then {key} else {}
  }

  /** `createSubAccount` fails exactly when the company name is missing;
      otherwise it sends the company name, the pricing flag and each optional
      key exactly when its argument is present, and nothing else. */
  lemma SubAccountParamsKeys(companyName: Option<string>, notificationMobile: Option<string>,
                             notificationEmail: Option<string>, username: Option<string>,
                             password: Option<string>, promoCode: Option<string>, overrideRates: bool)
    ensures var r := SubAccountParams(companyName, notificationMobile, notificationEmail,
                                      username, password, promoCode, overrideRates);
      && (r.Success? <==> companyName.Some?)
      && (r.Success? ==>
            r.value.Keys == {"company_name", "override_pricing"}
                            + KeyIf("notification_mobile", notificationMobile)
                            + KeyIf("notification_email", notificationEmail)
                            + KeyIf("account_username", username)
                            + KeyIf("account_password", password)
                            + KeyIf("promo_code", promoCode))
  {
  }

  /** Every key `createSubAccount` sends carries the argument it stands for. */
  lemma SubAccountParamsValues(companyName: Option<string>, notificationMobile: Option<string>,
                             notificationEmail: Option<string>, username: Option<string>,
                             password: Option<string>, promoCode: Option<string>, overrideRates: bool)
    requires companyName.Some?
    ensures var r := SubAccountParams(companyName, notificationMobile, notificationEmail,
                                      username, password, promoCode, overrideRates);
      && r.value["company_name"] == companyName.value
      && r.value["override_pricing"] == BoolToString(overrideRates)
      && (notificationMobile.Some? ==> r.value["notification_mobile"] == notificationMobile.value)
      && (notificationEmail.Some? ==> r.value["notification_email"] == notificationEmail.value)
      && (username.Some? ==> r.value["account_username"] == username.value)
      && (password.Some? ==> r.value["account_password"] == password.value)
      && (promoCode.Some? ==> r.value["promo_code"] == promoCode.value)
  {
    SubAccountKeysDistinct();
  }

  /** The parameters of `transferCreditsToAccount`. */
  function TransferToAccountParams(quantity: int32, target: Option<string>): (r: Result<map<string, string>>)
    ensures r.Success? <==> target.Some?
  {
    if target.None? then Failure
    else Success(map["quantity" := IntToString(quantity), "target" := target.value])
  }

  /** The parameters of `transferCreditsToUser`. */
  function TransferToUserParams(quantity: int32, targetUsername: Option<string>, targetPassword: Option<string>)
    : (r: Result<map<string, string>>)
    ensures r.Success? <==> targetUsername.Some? && targetPassword.Some?
  {
    if targetUsername.None? || targetPassword.None? then Failure
    else Success(map["quantity" := IntToString(quantity), "target_username" := targetUsername.value,
                     "target_password" := targetPassword.value])
  }

  /** Both transfers send the quantity so that the gateway reads back the
      caller's number, and fail exactly when a target field is missing. */
  lemma TransferParamsSpec(quantity: int32, target: Option<string>,
                           targetUsername: Option<string>, targetPassword: Option<string>)
    ensures var a := TransferToAccountParams(quantity, target);
      && (a.Success? <==> target.Some?)
      && (a.Success? ==> a.value.Keys == {"quantity", "target"} && a.value["target"] == target.value
                         && ParseInt(a.value["quantity"]) == Some(quantity))
    ensures var u := TransferToUserParams(quantity, targetUsername, targetPassword);
      && (u.Success? <==> targetUsername.Some? && targetPassword.Some?)
      && (u.Success? ==> u.value.Keys == {"quantity", "target_username", "target_password"}
                         && u.value["target_username"] == targetUsername.value
                         && u.value["target_password"] == targetPassword.value
                         && ParseInt(u.value["quantity"]) == Some(quantity))
  {
    ParseIntToString(quantity);
  }
  // ------------------------------------------------ keys the operations send

  /** `sendSMS` sends plain keys only, so its parameter string reads back. */
  lemma SmsKeysArePlain(message: Option<string>, mobileNumber: Option<string>, originator: Option<string>,
                        validity: int32, email: Option<string>, custom: Option<string>,
                        schedule: Option<Date>, checkStop: bool, formatDate: Date -> string)
    ensures var r := SmsParams(message, mobileNumber, originator, validity, email, custom,
                               schedule, checkStop, formatDate);
      r.Success? ==> forall k <- r.value :: IsPlainKey(k)
  {
    SmsParamsSpec(message, mobileNumber, originator, validity, email, custom, schedule, checkStop, formatDate);
    assert forall k <- SmsKeys :: IsPlainKey(k);
    assert IsPlainKey("schedule");
  }

  /** `createSubAccount` sends plain keys only. */
  lemma SubAccountKeysArePlain(companyName: Option<string>, notificationMobile: Option<string>,
                               notificationEmail: Option<string>, username: Option<string>,
                               password: Option<string>, promoCode: Option<string>, overrideRates: bool)
    ensures var r := SubAccountParams(companyName, notificationMobile, notificationEmail,
                                      username, password, promoCode, overrideRates);
      r.Success? ==> forall k <- r.value :: IsPlainKey(k)
  {
    SubAccountParamsKeys(companyName, notificationMobile, notificationEmail, username, password,
                         promoCode, overrideRates);
    var all := {"company_name", "override_pricing", "notification_mobile", "notification_email",
                "account_username", "account_password", "promo_code"};
    assert forall k <- all :: IsPlainKey(k);
  }

  /** Both transfers, and the table of numbers `addNumbersToGroup` posts,
      send plain keys only. */
  lemma TransferKeysArePlain(quantity: int32, target: Option<string>,
                             targetUsername: Option<string>, targetPassword: Option<string>, numbers: string)
    ensures var a := TransferToAccountParams(quantity, target);
      a.Success? ==> forall k <- a.value :: IsPlainKey(k)
    ensures var u := TransferToUserParams(quantity, targetUsername, targetPassword);
      u.Success? ==> forall k <- u.value :: IsPlainKey(k)
    ensures forall k <- map["numbers" := numbers] :: IsPlainKey(k)
  {
    TransferParamsSpec(quantity, target, targetUsername, targetPassword);
    assert forall k <- {"quantity", "target", "target_username", "target_password", "numbers"} :: IsPlainKey(k);
  }
}
