# TextMarketer REST client: a Dafny model

This project models the Java client library of the TextMarketer SMS gateway.
The library has one client class, `RestClient`, and one value class,
`DeliveryReport`. The model covers the deterministic part of the client:

- **Request construction.** The client fixes its credentials and its
  environment (production or sandbox) when it is made. Each operation
  normalises its arguments into a parameter table. For example, `sendSMS`
  replaces a validity outside 1..72 hours by 72 and sends a missing e-mail or tag as
  `""`; `createSubAccount` sends each optional field only when it is given.
- **The parameter string.** It is written as `key=value&` for every entry,
  the client's own parameters first, with each value form-encoded
  (`URLEncoder.encode(value, "UTF-8")`: the application/x-www-form-urlencoded
  serialiser of section 17.13.4.1 of HTML 4.01). GET, PUT and DELETE put it in
  the URL after `?`. POST sends it as the body, with its Content-Length.
- **The error table.** After a failed call that read an HTTP status, status
  400 refills the table from the `<error code=…>` elements of the reply. Any
  other status leaves one entry, the status in decimal ↦ the error text.
  `getLastErrorCode` and `getLastErrorMessage` read the table back.
- **The response decoders** over an abstract DOM tree: `parseResponseXML`,
  `parseResponseGroupsXML`, `parseDeliveryReport`, and the extractors inside
  `getCredits`, `getGroup`, `addNumbersToGroup` and `getDeliveryReports`.
- **`DeliveryReport`.** A report is a name, a timestamp, a file extension
  and an append-only list of five-key rows.

## Layout

- `wrappers.dfy` (module `Wrappers`): `Option`, `Result` (every exception is one `Failure`).
- `java_text.dfy` (module `JavaText`): Java `int`, `Integer.toString`, `Integer.parseInt`, `Boolean.toString`.
- `form_encoding.dfy` (module `FormEncoding`): UTF-8, `URLEncoder.encode`, and a decoder as its partner.
- `xml_tree.dfy` (module `XmlTree`): nodes, attributes, text content, `getElementsByTagName` in document order.
- `delivery_report.dfy` (module `Reports`): class `DeliveryReport`.
- `requests.dfy` (module `Requests`): URLs, the parameter string and reading it back, per-operation parameter tables.
- `response_decoders.dfy` (module `Decoders`): each decoder as a function, plus the method with the client's loop proved to compute it.
- `rest_client.dfy` (module `RestApi`): class `RestClient`: the gateway call, the error table, the public operations.

The client is imperative, and the model keeps that form:

- `RestClient` is a class. Its environment flag and credential table are
  `const` fields, because only the constructor sets them. The last reply
  (`xmlResponse`), the error table (`errors`) and the order that table hands
  its keys out in (`errorOrder`) are fields that the operations reassign.
- `DeliveryReport` is a class whose `rows` field `AddRow` extends.
- The loops of the source are `while` loops proved against specification
  functions: the parameter string, the error-table fill, and every decoder
  that copies into a table, a list or an array.

The network, the XML parser and the two date formats are passed to each call
as a `Platform` value:

- the round trip is `net: Request -> Exchange`, with
  `Exchange = Ok(body) | HttpFail(code, errorBody) | TransportFail`;
- the parser is `parseXml: string -> Option<Document>`;
- the two date formats are `formatDate` and `parseDate`.

A `Hashtable` hands out its entries in an order the program does not
control. The model therefore lets the loop pick any remaining key, and
states its result for *some* enumeration of the table. The client keeps the
enumeration order of its error table in `errorOrder`, whose class invariant
says it lists every key exactly once. The invariant also says that the
client's own parameter names need no form encoding, so the body of every
POST reads back as sent (`RestApi.PostBodyReadsBack`). `getLastErrorCode` and
`getLastErrorMessage` both read its first key, so the code and the message
they return belong to the same entry. After a failure other than status 400
the table has one entry, and both read it (`RestApi.StatusErrorOrder`).

Notes on what the code does:

- `getCredits` throws when the reply does not parse. It returns 0 only when
  a parsed reply has no `credits` element.
- With no group, `parseResponseXML` reads the document's child at index 1,
  not the root element at index 0. A reply whose document holds only its
  root element therefore gives the empty table
  (`Decoders.SingleRootReadsEmpty`).
- The number and report-name extractors throw on an unparsable reply. Only
  `parseResponseXML` and `parseResponseGroupsXML` swallow the failure and
  return an empty result.

Where each specification function of the decoders is characterised:

- `ElementMap`: `Decoders.ElementMapKeys` (its keys) and `Decoders.ElementMapSpec` (each value).
- `AttrMap`: `Decoders.AttrMapSpec`.
- `CodeTable` and `ErrorTable`: `Decoders.CodeTableKeys` and `Decoders.CodeTableValues`.
- `RowOf` and `RowsOf`: the contract of `Decoders.RowOf`, `Decoders.RowsOfSpec`, `Decoders.RowsOfPrefix` and `Decoders.MissingRowAttributeFails`.
- `ReportOf` and `ReportsOf`: `Decoders.ReportsOfSucceeds`, `Decoders.ReportsOfInOrder` and `Decoders.ReportsOfPrefix`.
- `ReportNames`: `Decoders.ReportNamesSpec` and `Decoders.ReportNamesPrefix`.
- `CreditsReply` and `AddedReply`: the contracts of `Decoders.CreditsOf` and `Decoders.AddedCountOf`, and the round trips `Decoders.CreditsReadBack` and `Decoders.AddedReadBack`.
- `DeliveryReportsOf`: the contract of `Decoders.ParseDeliveryReport`, with `ReportsOf` as above.

## Model

| member | source | states |
|---|---|---|
| JavaText.IntToString | src/uk/co/textmarketer/RestAPI/RestClient.java:194 | `Integer.toString` writes a leading `-` exactly for negative numbers, then decimal digits only |
| JavaText.ParseInt | src/uk/co/textmarketer/RestAPI/RestClient.java:839 | `Integer.parseInt` succeeds only on an optional sign followed by digits, and a `-` never gives a positive number; an unsigned digit string reads as the number it denotes below 2^31 and fails from 2^31 up; `-` and digits read as the negated number down to -2^31 and fail below it |
| JavaText.NatToStringValue | src/uk/co/textmarketer/RestAPI/RestClient.java:194 | the decimal digits written for a natural number denote that number |
| JavaText.ParseIntToString | src/uk/co/textmarketer/RestAPI/RestClient.java:194 | `Integer.parseInt(Integer.toString(n)) == n` for every Java `int` |
| JavaText.IntToStringInjective | src/uk/co/textmarketer/RestAPI/RestClient.java:972 | two codes written the same are the same code, so an error key identifies its status |
| FormEncoding.EncodeBytes | src/uk/co/textmarketer/RestAPI/RestClient.java:905 | the encoder only produces kept characters, `+` and `%` (never `&`, `=` or a space) |
| FormEncoding.FormEncode | src/uk/co/textmarketer/RestAPI/RestClient.java:905 | an encoded value is form-safe: it cannot break the `key=value&` structure |
| FormEncoding.Utf8RoundTrip | src/uk/co/textmarketer/RestAPI/RestClient.java:905 | UTF-8 decoding inverts the UTF-8 encoding of every string |
| FormEncoding.BytesRoundTrip | src/uk/co/textmarketer/RestAPI/RestClient.java:905 | percent/plus decoding inverts the byte serialiser on every byte sequence |
| FormEncoding.FormRoundTrip | src/uk/co/textmarketer/RestAPI/RestClient.java:905 | every value, including `&`, `=`, spaces and non-ASCII text, decodes back to itself |
| FormEncoding.AsciiUtf8Length | src/uk/co/textmarketer/RestAPI/RestClient.java:932 | an ASCII string has as many UTF-8 bytes as characters |
| XmlTree.Attributes | src/uk/co/textmarketer/RestAPI/RestClient.java:1098-1099 | `getAttributes()` is non-null exactly for element nodes |
| XmlTree.TextContent | src/uk/co/textmarketer/RestAPI/RestClient.java:1028 | an element's `getTextContent()` is the data of its descendant text nodes in document order, comments skipped |
| XmlTree.ChildrenText | src/uk/co/textmarketer/RestAPI/RestClient.java:1028 | the text of a run of nodes is the data of the text nodes in its document-order traversal |
| XmlTree.PreorderText | src/uk/co/textmarketer/RestAPI/RestClient.java:1028 | the text under a run is its first node's, then its descendants', then the rest's |
| XmlTree.NamedItemSpec | src/uk/co/textmarketer/RestAPI/RestClient.java:1092-1094 | the contract of `XmlTree.NamedItem`: `getNamedItem` finds an attribute exactly when one has that name, and returns the first such value |
| XmlTree.Named | src/uk/co/textmarketer/RestAPI/RestClient.java:1089 | the filter keeps exactly the elements with the tag, and nothing else |
| XmlTree.ElementsByTagName | src/uk/co/textmarketer/RestAPI/RestClient.java:1089 | `getElementsByTagName` returns every element of the document with that tag and only those |
| XmlTree.NamedConcat | src/uk/co/textmarketer/RestAPI/RestClient.java:1089 | the search over a concatenation is the search over each part, in order |
| XmlTree.FirstNamedIsTopmost | src/uk/co/textmarketer/RestAPI/RestClient.java:1024 | `item(0)` of the search is the outermost match: an element precedes its own descendants |
| XmlTree.NamedNone | src/uk/co/textmarketer/RestAPI/RestClient.java:139 | a search finds nothing where no node has the tag |
| XmlTree.TextsPreorder | src/uk/co/textmarketer/RestAPI/RestClient.java:1089 | a run of text nodes is its own document-order traversal |
| XmlTree.LeavesFound | src/uk/co/textmarketer/RestAPI/RestClient.java:1089 | a run of text-only elements with the tag is found whole and in order |
| XmlTree.LeavesUnderRoot | src/uk/co/textmarketer/RestAPI/RestClient.java:450 | under a root with another name, its text-only children with the tag are exactly what the search returns, in order |
| Reports.RowTable | src/uk/co/textmarketer/RestAPI/DeliveryReport.java:80-85 | a row has exactly the keys `last_updated, mobile_number, message_id, status, custom`, bound to the five arguments in that order |
| Reports.DeliveryReport.constructor | src/uk/co/textmarketer/RestAPI/DeliveryReport.java:31-36 | a new report has the given name, time and extension and no rows |
| Reports.DeliveryReport.Blank | src/uk/co/textmarketer/RestAPI/DeliveryReport.java:45-47 | the no-argument report has name `""`, extension `""`, the current time and no rows |
| Reports.DeliveryReport.WithTimestamp | src/uk/co/textmarketer/RestAPI/DeliveryReport.java:38-40 | a report is made exactly when the timestamp text reads; it then has that time and no rows |
| Reports.DeliveryReport.SetName | src/uk/co/textmarketer/RestAPI/DeliveryReport.java:59-61 | only the name changes; the rows and the other fields are untouched |
| Reports.DeliveryReport.SetLastUpdate | src/uk/co/textmarketer/RestAPI/DeliveryReport.java:67-69 | only the time changes |
| Reports.DeliveryReport.SetExtension | src/uk/co/textmarketer/RestAPI/DeliveryReport.java:75-77 | only the extension changes |
| Reports.DeliveryReport.AddRow | src/uk/co/textmarketer/RestAPI/DeliveryReport.java:79-87 | exactly one row is appended at the end; the earlier rows and the other fields are unchanged |
| Reports.DeliveryReport.GetRows | src/uk/co/textmarketer/RestAPI/DeliveryReport.java:95-101 | a new array with the rows, same length and order |
| Requests.RequestForShape | src/uk/co/textmarketer/RestAPI/RestClient.java:893-919 | the URL starts with the production base exactly when the flag is set, else with the sandbox base; `?` and the string are appended exactly for GET/PUT/DELETE, and POST carries the same string as its body |
| Requests.RequestFor | src/uk/co/textmarketer/RestAPI/RestClient.java:889-936 | the request keeps the method; it has a body exactly for POST, and that body has the form content type and a Content-Length equal to its UTF-8 byte count |
| Requests.ContentLengthOfAscii | src/uk/co/textmarketer/RestAPI/RestClient.java:931-932 | a POST announces its body's length as Content-Length whenever the body is ASCII |
| Requests.Entries | src/uk/co/textmarketer/RestAPI/RestClient.java:902 | the entries of a table in a given key order, one per key |
| Requests.JoinConcat | src/uk/co/textmarketer/RestAPI/RestClient.java:899-916 | the string of two runs of entries is the string of the first followed by that of the second |
| Requests.EntriesSnoc | src/uk/co/textmarketer/RestAPI/RestClient.java:902-907 | one more key adds exactly its `key=value&` field at the end |
| Requests.EnumerationStep | src/uk/co/textmarketer/RestAPI/RestClient.java:902 | taking one more key from the table writes no key twice and loses none |
| Requests.KeyOrder | src/uk/co/textmarketer/RestAPI/RestClient.java:838 | the keys of a table in an order that lists each of them exactly once |
| Requests.AppendParams | src/uk/co/textmarketer/RestAPI/RestClient.java:902-907 | the loop appends `key=encode(value)&` once for every key of the table, in the enumeration order it reports |
| Requests.IsParamStringOf | src/uk/co/textmarketer/RestAPI/RestClient.java:899-916 | the client entries followed by the extra entries, each in some enumeration, form a parameter string of the two tables |
| Requests.IndexOf | src/uk/co/textmarketer/RestAPI/RestClient.java:903-906 | the position found is the first occurrence of the separator, and none means it does not occur |
| Requests.IndexOfAfter | src/uk/co/textmarketer/RestAPI/RestClient.java:903-906 | a separator after text without one is found right there |
| Requests.SplitField | src/uk/co/textmarketer/RestAPI/RestClient.java:903-906 | one field with a plain key splits back into that key and its original value |
| Requests.SplitJoin | src/uk/co/textmarketer/RestAPI/RestClient.java:899-916 | splitting a parameter string on `&` and `=` and decoding gives back exactly the pairs, in order |
| Requests.JoinIsAscii | src/uk/co/textmarketer/RestAPI/RestClient.java:932 | a parameter string over plain keys is ASCII |
| Requests.ParamStringReadsBack | src/uk/co/textmarketer/RestAPI/RestClient.java:899-916 | for every enumeration order, the string reads back as the client's parameters and then the extra ones, each once, every value as given |
| Requests.EntriesPlain | src/uk/co/textmarketer/RestAPI/RestClient.java:902 | entries of a table with plain keys have plain keys |
| Requests.ClientParams | src/uk/co/textmarketer/RestAPI/RestClient.java:79-82 | the client sends exactly `password`, `username` and `apiClient = "tm-java-1.4"` |
| Requests.Validity | src/uk/co/textmarketer/RestAPI/RestClient.java:183-184 | a validity in 1..72 is kept and any other becomes 72 |
| Requests.SmsParams | src/uk/co/textmarketer/RestAPI/RestClient.java:182-202 | `sendSMS` builds a table exactly when message, number and originator are present (contents in `SmsParamsSpec`) |
| Requests.SmsParamsSpec | src/uk/co/textmarketer/RestAPI/RestClient.java:182-202 | `sendSMS` fails exactly when message, number or originator is missing; otherwise it sends exactly the seven fields plus `schedule` iff there is one, the validity reads back as given when it is in 1..72 and as 72 otherwise, and a missing e-mail or tag is `""` |
| Requests.SmsDefaults | src/uk/co/textmarketer/RestAPI/RestClient.java:220-221 | the three-argument overload sends validity `72`, empty e-mail and tag, and `check_stop=false` |
| Requests.PutIfPresentSpec | src/uk/co/textmarketer/RestAPI/RestClient.java:789-790 | a key is added, with its value, exactly when the optional argument is present; every other entry stays as it was |
| Requests.SubAccountParams | src/uk/co/textmarketer/RestAPI/RestClient.java:787-799 | `createSubAccount` builds a table exactly when the company name is present (contents in `SubAccountParamsKeys` and `SubAccountParamsValues`) |
| Requests.SubAccountParamsKeys | src/uk/co/textmarketer/RestAPI/RestClient.java:787-799 | `createSubAccount` fails exactly without a company name; otherwise it sends `company_name`, `override_pricing` and each optional key exactly when given |
| Requests.SubAccountParamsValues | src/uk/co/textmarketer/RestAPI/RestClient.java:787-799 | every key `createSubAccount` sends carries its own argument: the company name, the pricing flag as `true`/`false`, and each optional field that is present |
| Requests.TransferToAccountParams | src/uk/co/textmarketer/RestAPI/RestClient.java:308-311 | `transferCreditsToAccount` builds a table exactly when the target is present (contents in `TransferParamsSpec`) |
| Requests.TransferToUserParams | src/uk/co/textmarketer/RestAPI/RestClient.java:342-346 | `transferCreditsToUser` builds a table exactly when target user name and password are present (contents in `TransferParamsSpec`) |
| Requests.TransferParamsSpec | src/uk/co/textmarketer/RestAPI/RestClient.java:308-311 | both transfers fail exactly when a target field is missing, and otherwise send exactly their keys, with the quantity reading back as given |
| Requests.SmsKeysArePlain | src/uk/co/textmarketer/RestAPI/RestClient.java:190-201 | every key `sendSMS` sends contains no `&` or `=` |
| Requests.SubAccountKeysArePlain | src/uk/co/textmarketer/RestAPI/RestClient.java:787-799 | every key `createSubAccount` sends contains no `&` or `=` |
| Requests.TransferKeysArePlain | src/uk/co/textmarketer/RestAPI/RestClient.java:308-311 | every key either transfer sends, and the `numbers` key of `addNumbersToGroup`, contains no `&` or `=` |
| Decoders.ElementMapKeys | src/uk/co/textmarketer/RestAPI/RestClient.java:1025-1029 | the table's keys are exactly the names of the element nodes |
| Decoders.ElementMapSpec | src/uk/co/textmarketer/RestAPI/RestClient.java:1025-1029 | the table's keys are exactly the element names among the nodes, each bound to the text of the last element with that name |
| Decoders.SelectedChildren | src/uk/co/textmarketer/RestAPI/RestClient.java:1021-1024 | the lookup succeeds exactly when the document has a child at index 1 (no group) or an element with the group's name |
| Decoders.ResponseMap | src/uk/co/textmarketer/RestAPI/RestClient.java:1009-1033 | `parseResponseXML` returns a non-empty table only when there was a reply, it parsed and the selected node exists; whenever the reply parsed and the selected node exists, the result is the table of the selected children |
| Decoders.ParseResponseXml | src/uk/co/textmarketer/RestAPI/RestClient.java:1009-1033 | the loop builds exactly the table of the selected children, and the empty table on null input or any parse or lookup failure |
| Decoders.SingleRootReadsEmpty | src/uk/co/textmarketer/RestAPI/RestClient.java:1022 | with no group, a document holding only its root element decodes to the empty table |
| Decoders.SecondChildIsRead | src/uk/co/textmarketer/RestAPI/RestClient.java:1022 | with no group and one node before the root, the table is that of the root's children |
| Decoders.GroupAtRootIsRead | src/uk/co/textmarketer/RestAPI/RestClient.java:1024 | a group naming the root element reads the root's children, whatever lies deeper |
| Decoders.AttrMapSpec | src/uk/co/textmarketer/RestAPI/RestClient.java:1058-1061 | a group table's keys are exactly the attribute names, each bound to its value |
| Decoders.AttrTable | src/uk/co/textmarketer/RestAPI/RestClient.java:1058-1061 | the inner loop computes exactly that attribute table |
| Decoders.ResponseGroups | src/uk/co/textmarketer/RestAPI/RestClient.java:1054-1063 | one table per element with the group name, in document order, each that element's attributes; nothing when the text does not parse |
| Decoders.ParseResponseGroupsXml | src/uk/co/textmarketer/RestAPI/RestClient.java:1042-1071 | a new array holding those tables, in order |
| Decoders.NumbersOf | src/uk/co/textmarketer/RestAPI/RestClient.java:450-455 | one text per `number` element, in document order |
| Decoders.NumberTexts | src/uk/co/textmarketer/RestAPI/RestClient.java:451-456 | the loop fills a new array with exactly those texts |
| Decoders.ReportNamesSpec | src/uk/co/textmarketer/RestAPI/RestClient.java:565-570 | report names are read exactly when every report has a `name`, and are then one per report, in order |
| Decoders.ReportNamesPrefix | src/uk/co/textmarketer/RestAPI/RestClient.java:565-570 | a report without a name fails the whole list |
| Decoders.ReportNameList | src/uk/co/textmarketer/RestAPI/RestClient.java:563-571 | the loop succeeds exactly when the names can be read, and then returns them in a new array |
| Decoders.CreditsOf | src/uk/co/textmarketer/RestAPI/RestClient.java:138-141 | with no `credits` element the balance is 0; otherwise it is the first one's text, read as an `int` |
| Decoders.CreditsReadBack | src/uk/co/textmarketer/RestAPI/RestClient.java:138-141 | a reply `<response><credits>n</credits></response>` decodes to `n` for every Java `int` |
| Decoders.NoCreditsReadsZero | src/uk/co/textmarketer/RestAPI/RestClient.java:138-141 | a reply with no `credits` element decodes to 0 |
| Decoders.AddedCountOf | src/uk/co/textmarketer/RestAPI/RestClient.java:495-502 | with no `added` element the count is 0; an `added` element without attributes is a failure; otherwise the count is `Integer.parseInt` of its first attribute's value, a failure when that does not parse |
| Decoders.AddedReadBack | src/uk/co/textmarketer/RestAPI/RestClient.java:495-498 | a reply `<response><added x="n"/></response>` decodes to `n` for every Java `int` |
| Decoders.FirstMissing | src/uk/co/textmarketer/RestAPI/RestClient.java:962-966 | the error loop reads every element before the first one without a `code`, and stops there |
| Decoders.CodeTableKeys | src/uk/co/textmarketer/RestAPI/RestClient.java:962-966 | the error table's keys are exactly the codes of the elements read |
| Decoders.CodeTableValues | src/uk/co/textmarketer/RestAPI/RestClient.java:962-966 | each code is bound to the text of the last element with that code |
| Decoders.CodeTableSnoc | src/uk/co/textmarketer/RestAPI/RestClient.java:962-966 | one more element read before the first one without a code adds exactly its code ↦ message entry |
| Decoders.TwoErrorsExample | src/uk/co/textmarketer/RestAPI/RestClient.java:961-966 | a 400 body with errors 1001 and 1002 gives the table of both codes and their messages |
| Decoders.RowOf | src/uk/co/textmarketer/RestAPI/RestClient.java:1100-1105 | a row is read exactly when all five row attributes are present, and then holds exactly them |
| Decoders.ElementsIn | src/uk/co/textmarketer/RestAPI/RestClient.java:1097-1099 | the children with a non-null attribute map are exactly the element children |
| Decoders.RowsOfSpec | src/uk/co/textmarketer/RestAPI/RestClient.java:1096-1107 | rows are read exactly when every child element has all row attributes, and then one row per child element, in order |
| Decoders.RowsOfPrefix | src/uk/co/textmarketer/RestAPI/RestClient.java:1096-1107 | a bad row fails the whole report |
| Decoders.ReportsOfSucceeds | src/uk/co/textmarketer/RestAPI/RestClient.java:1091-1108 | the reports are read exactly when every `report` element reads |
| Decoders.ReportsOfInOrder | src/uk/co/textmarketer/RestAPI/RestClient.java:1091-1108 | then there is one report per element, in order |
| Decoders.ReportsOfAt | src/uk/co/textmarketer/RestAPI/RestClient.java:1091-1108 | the report at each position of a read list is the one its element reads |
| Decoders.ReportsOfPrefix | src/uk/co/textmarketer/RestAPI/RestClient.java:1091-1108 | a bad report fails the whole call |
| Decoders.ReportsOfSnoc | src/uk/co/textmarketer/RestAPI/RestClient.java:1091-1108 | a report read after the earlier ones is added at the end |
| Decoders.MissingRowAttributeFails | src/uk/co/textmarketer/RestAPI/RestClient.java:1100-1105 | a child element missing any row attribute fails its report |
| Decoders.AddRows | src/uk/co/textmarketer/RestAPI/RestClient.java:1096-1107 | the inner loop succeeds exactly when the rows read, and then appends exactly those rows to the report |
| Decoders.ReadReport | src/uk/co/textmarketer/RestAPI/RestClient.java:1092-1107 | one pass of the outer loop yields a new report exactly when the element reads, holding exactly its value |
| Decoders.ReadReports | src/uk/co/textmarketer/RestAPI/RestClient.java:1089-1107 | the outer loop succeeds exactly when every `report` element reads, and then yields one new report per element, in order, each holding what its element reads |
| Decoders.ParseDeliveryReport | src/uk/co/textmarketer/RestAPI/RestClient.java:1083-1110 | succeeds exactly when the reply parses and every report reads; then one new report per `report` element, in order |
| RestApi.Answer | src/uk/co/textmarketer/RestAPI/RestClient.java:949 | the gateway call returns the reply body exactly when the round trip succeeded |
| RestApi.Kept | src/uk/co/textmarketer/RestAPI/RestClient.java:131 | `xmlResponse` becomes the reply on success and is untouched on failure |
| RestApi.StatusErrors | src/uk/co/textmarketer/RestAPI/RestClient.java:958-972 | after a failure with status 400 the table is the error table of the parsed body, or empty when it does not parse; after any other status it has the one key `Integer.toString(status)`, bound to the error text |
| RestApi.ErrorsAfter | src/uk/co/textmarketer/RestAPI/RestClient.java:950-973 | the table is kept unless the round trip read a status and an error text; then it is replaced by that failure's table, whatever it held |
| RestApi.StatusErrorReadsBack | src/uk/co/textmarketer/RestAPI/RestClient.java:971-972 | after a non-400 failure the table has one entry, whose key parses back to the status and whose value is the error text |
| RestApi.ReportService | src/uk/co/textmarketer/RestAPI/RestClient.java:607-747 | the path starts with `deliveryReport/` and the encoded name, and holds one `/` more for the prefix, two for a tag and two for a date range, so no argument can add a path segment |
| RestApi.TagSegment | src/uk/co/textmarketer/RestAPI/RestClient.java:650 | the tag part holds exactly its two `/`, and none when there is no tag |
| RestApi.RangeSegments | src/uk/co/textmarketer/RestAPI/RestClient.java:696 | the date part holds exactly its two `/`, and none when there is no range |
| RestApi.SegmentSlashes | src/uk/co/textmarketer/RestAPI/RestClient.java:609 | an encoded segment adds no `/` to its separator |
| RestApi.RestClient.constructor | src/uk/co/textmarketer/RestAPI/RestClient.java:76-83 | the flag and the credential table are set from the arguments, with no reply and no errors yet (an empty enumeration order); the new client is valid, its own parameter names needing no form encoding |
| RestApi.RestClient.RecordFailure | src/uk/co/textmarketer/RestAPI/RestClient.java:950-973 | the table is cleared and refilled: from the `error` elements for 400 (empty if the body does not parse), else one status ↦ text entry; the kept order then enumerates the new table |
| RestApi.RestClient.FillErrors | src/uk/co/textmarketer/RestAPI/RestClient.java:961-966 | the loop fills the cleared table with exactly the error table of the parsed 400 reply |
| RestApi.RestClient.ParamString | src/uk/co/textmarketer/RestAPI/RestClient.java:899-916 | the string written is a parameter string of the client table followed by the extra one |
| RestApi.RestClient.GatewayCall | src/uk/co/textmarketer/RestAPI/RestClient.java:889-981 | sends a request of this client for the service, returns the body exactly on success, and updates the error table only after a status and error text were read; otherwise the table and the order it enumerates in are both unchanged |
| RestApi.RestClient.Fetch | src/uk/co/textmarketer/RestAPI/RestClient.java:131 | the same (the error table and its order are untouched unless a status and error text were read), and the reply is kept on success |
| RestApi.RestClient.IsLoginValid | src/uk/co/textmarketer/RestAPI/RestClient.java:102-109 | GET `credits`; true exactly when the call succeeds; the error table and the order it enumerates in change only after a failure that read a status and an error text |
| RestApi.RestClient.GetCredits | src/uk/co/textmarketer/RestAPI/RestClient.java:128-149 | GET `credits`; the balance decoded from the reply, and a failure when the call fails or the reply does not parse; the error table and the order it enumerates in change only after a failure that read a status and an error text |
| RestApi.RestClient.SendSms | src/uk/co/textmarketer/RestAPI/RestClient.java:182-209 | nothing is sent when a mandatory field is missing; otherwise POST `sms` with the normalised fields, and the table of the reply; the error table and the order it enumerates in change only after a failure that read a status and an error text, and not at all when nothing is sent |
| RestApi.RestClient.TransferCreditsToAccount | src/uk/co/textmarketer/RestAPI/RestClient.java:308-318 | POST `credits` with quantity and target, and the table of the reply; the error table and the order it enumerates in change only after a failure that read a status and an error text, and not at all when nothing is sent |
| RestApi.RestClient.TransferCreditsToUser | src/uk/co/textmarketer/RestAPI/RestClient.java:342-353 | POST `credits` with quantity, target user name and password, and the table of the reply; the error table and the order it enumerates in change only after a failure that read a status and an error text, and not at all when nothing is sent |
| RestApi.RestClient.GetKeyword | src/uk/co/textmarketer/RestAPI/RestClient.java:376-383 | GET `keywords/` and the encoded keyword, and the table of the reply; the error table and the order it enumerates in change only after a failure that read a status and an error text |
| RestApi.RestClient.GetGroups | src/uk/co/textmarketer/RestAPI/RestClient.java:411-418 | GET `groups`; one attribute table per `group` element; the error table and the order it enumerates in change only after a failure that read a status and an error text |
| RestApi.RestClient.GetGroup | src/uk/co/textmarketer/RestAPI/RestClient.java:441-460 | GET `group/` and the encoded name; the numbers exactly when the reply parses; the error table and the order it enumerates in change only after a failure that read a status and an error text |
| RestApi.RestClient.AddNumbersToGroup | src/uk/co/textmarketer/RestAPI/RestClient.java:485-503 | POST the numbers to `group/` and the encoded name; the count from the reply; the error table and the order it enumerates in change only after a failure that read a status and an error text, and not at all when nothing is sent |
| RestApi.RestClient.AddGroup | src/uk/co/textmarketer/RestAPI/RestClient.java:527-534 | PUT `group/` and the encoded name; true exactly when the call succeeds; the error table and the order it enumerates in change only after a failure that read a status and an error text |
| RestApi.RestClient.GetDeliveryReports | src/uk/co/textmarketer/RestAPI/RestClient.java:556-575 | GET `deliveryReports`; the report names exactly when the reply parses and every report has a name; the error table and the order it enumerates in change only after a failure that read a status and an error text |
| RestApi.RestClient.GetDeliveryReport | src/uk/co/textmarketer/RestAPI/RestClient.java:607-747 | GET the report path, with the tag and the date range when given; new reports exactly when the reply decodes; the error table and the order it enumerates in change only after a failure that read a status and an error text |
| RestApi.RestClient.CreateSubAccount | src/uk/co/textmarketer/RestAPI/RestClient.java:784-806 | nothing is sent without a company name; otherwise POST `account/sub`, and the table read from the `account` element; the error table and the order it enumerates in change only after a failure that read a status and an error text, and not at all when nothing is sent |
| RestApi.RestClient.DeleteSms | src/uk/co/textmarketer/RestAPI/RestClient.java:1133-1140 | DELETE `sms/` and the encoded id, and the table of the reply; the error table and the order it enumerates in change only after a failure that read a status and an error text |
| RestApi.RestClient.GetXml | src/uk/co/textmarketer/RestAPI/RestClient.java:827-829 | the last kept reply |
| RestApi.RestClient.GetLastErrorCode | src/uk/co/textmarketer/RestAPI/RestClient.java:836-842 | 0 with no errors; otherwise the first key the table enumerates, read as an `int`, failing when it is not a number |
| RestApi.RestClient.GetLastErrorMessage | src/uk/co/textmarketer/RestAPI/RestClient.java:849-855 | `""` with no errors; otherwise the message of that same first key, so code and message belong to one entry |
| RestApi.RestClient.GetLastErrors | src/uk/co/textmarketer/RestAPI/RestClient.java:877-879 | the whole error table |
| RestApi.SendsToOwnEnvironment | src/uk/co/textmarketer/RestAPI/RestClient.java:893-896 | every request of a client goes to the production base exactly when it was made for production, and to the sandbox base otherwise |
| RestApi.FirstKeyExists | src/uk/co/textmarketer/RestAPI/RestClient.java:838 | a non-empty table enumerates a first key, and that key is in the table |
| RestApi.FirstTwoKeys | src/uk/co/textmarketer/RestAPI/RestClient.java:838 | the first two keys of an enumeration are different keys of the table |
| RestApi.StatusErrorOrder | src/uk/co/textmarketer/RestAPI/RestClient.java:971-972 | after a non-400 failure the only enumeration is the status key, which `getLastErrorCode` reads back as the status and `getLastErrorMessage` as the error text |
| RestApi.ClientKeysArePlain | src/uk/co/textmarketer/RestAPI/RestClient.java:80-82 | the client's own keys contain no `&` or `=` |
| RestApi.PostBodyReadsBack | src/uk/co/textmarketer/RestAPI/RestClient.java:929-936 | a POST carries the form content type, a Content-Length equal to the body's length, and a body that reads back as the client's parameters followed by the extra ones |

## Left out

- HTTP connection set-up, streams and `disconnect`: network I/O. Each round trip is an `Exchange` supplied by `Platform.net`. A failure that throws before a status is read (including a null error stream) is `TransportFail`, or `HttpFail` with no error text; both leave the error table unchanged.
- `getConnectionResponse`: it reads the stream line by line and appends `\r` after each line. The reply and error texts are opaque strings from the round trip.
- The XML parser: a foreign library. It is an oracle `parseXml` that yields a tree or fails. DOCTYPE declarations and processing instructions appear as `Comment` nodes, whose text an element's text content skips.
- `getElementsByTagName("*")`: the client never passes the wildcard.
- `SimpleDateFormat`: locale- and time-zone-dependent. It is modelled as the oracles `formatDate` and `parseDate`, and `Date` is an opaque instant.
- `new Date()` in the no-argument `DeliveryReport` constructor: the clock is the parameter `now`.
- Null arguments other than those the source itself handles: `Option` models the null `message`, mobile number, originator, transfer targets, numbers and company name that `Hashtable.put` rejects, and the null optional fields `sendSMS` and `createSubAccount` normalise. Null credentials in the constructor and null path arguments (keyword, group, report name) are not modelled; they would throw before any request is sent.
- `FormEncoding.FormEncode`: a Dafny `char` is a Unicode scalar value, so strings holding unpaired UTF-16 surrogates (which `URLEncoder` writes as `%3F`) are not modelled.
- `JavaText.ParseInt`: accepts only ASCII digits, where `Integer.parseInt` also accepts other Unicode decimal digits.
- `RestApi.RestClient.GetLastErrors`: returns the table as a value; the aliasing of the live `Hashtable` the source hands out is not modelled.
- `Reports.DeliveryReport.GetRows`: returns the rows as values in a new array; that the Java array holds the report's own row `Hashtable`s, so a caller could change them, is not modelled.
- `RestApi.RestClient.GatewayCall`: the Content-Length is the UTF-8 byte count. The source uses the platform's default charset, which agrees on the ASCII strings the client always sends: its keys are plain (`ClientKeysArePlain`, `SmsKeysArePlain`, `SubAccountKeysArePlain`, `TransferKeysArePlain`), and a parameter string over plain keys is ASCII (`JoinIsAscii`).
- The `sendSMS` overloads with fewer arguments: each only fills in defaults and calls the eight-argument form. `SendSms` takes `Option` arguments, and `SmsDefaults` states what the shortest overload sends.
- The four `getDeliveryReport` overloads: one method with an optional tag and an optional date range.
- `toString` and the plain getters of `DeliveryReport`: its fields are read directly through `Value()`.
- `RestClientException`: every failure is the one `Failure` value.
- The demonstration programs: they only print results.
- Thread safety of the shared `errors` and `xmlResponse` fields: the model is sequential, as the code is.
