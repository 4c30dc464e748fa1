/** What the client reads out of a gateway response, over the tree a parse
    yields: the flat name/text table of `parseResponseXML`, the attribute
    tables of `parseResponseGroupsXML`, the number and report-name lists of
    `getGroup` and `getDeliveryReports`, the counts of `getCredits` and
    `addNumbersToGroup`, the two-level reports of `parseDeliveryReport`, and
    the error table a status-400 reply leaves behind.

    Each decoder is given twice: as a function stating the result, and as a
    method with the loop the client runs, proved to compute that function. */
module Decoders {
  import opened Wrappers
  import opened JavaText
  import opened XmlTree
  import opened Reports

  /** The attribute list behind `getAttributes()`, empty where that is null
      (`AttrsOfAttributes`). */
  function AttrsOf(n: Node): seq<Attr> {
    if n.Element? then n.attrs else []
  }

  /** Reading a node's attributes as a list is `getAttributes()` with null
      read as no attributes. */
  lemma AttrsOfAttributes(n: Node)
    ensures AttrsOf(n) == Attributes(n).GetOr([])
  {
  }

  // ------------------------------------------------------- flat name/text table

  /** The table the loop of `parseResponseXML` fills from the nodes `ns`: each
      element's name mapped to its text, a later element overwriting an
      earlier one of the same name; other nodes are skipped. */
  function ElementMap(ns: seq<Node>): map<string, string> {
    if ns == [] then map[]
    else
      var n := ns[|ns| - 1];
      if n.Element? then ElementMap(ns[..|ns| - 1])[n.name := TextContent(n)]
      else ElementMap(ns[..|ns| - 1])
  }

  /** `ns[i]` is the last element of `ns` named `k`. */
  predicate LastNamed(ns: seq<Node>, i: int, k: string) {
    && 0 <= i < |ns| && IsElementNamed(ns[i], k)
    && forall j | i < j < |ns| :: !IsElementNamed(ns[j], k)
  }

  /** The table has exactly the names of the element nodes as keys. */
  lemma {:induction false} ElementMapKeys(ns: seq<Node>, k: string)
    ensures k in ElementMap(ns) <==> exists i :: 0 <= i < |ns| && IsElementNamed(ns[i], k)
  {
    if ns != [] {
      var init := ns[..|ns| - 1];
      ElementMapKeys(init, k);
      if exists i :: 0 <= i < |ns| && IsElementNamed(ns[i], k) {
        var i :| 0 <= i < |ns| && IsElementNamed(ns[i], k);
        if i < |init| {
          assert IsElementNamed(init[i], k);
        }
      }
    }
  }

  /** The table has exactly the names of the element nodes as keys, and each
      name carries the text of the last element with that name. */
  lemma {:induction false} ElementMapSpec(ns: seq<Node>, k: string)
    ensures k in ElementMap(ns) <==> exists i :: 0 <= i < |ns| && IsElementNamed(ns[i], k)
    ensures k in ElementMap(ns) ==> exists i :: LastNamed(ns, i, k) && ElementMap(ns)[k] == TextContent(ns[i])
  {
    ElementMapKeys(ns, k);
    if ns != [] {
      var init := ns[..|ns| - 1];
      var n := ns[|ns| - 1];
      if IsElementNamed(n, k) {
        assert LastNamed(ns, |ns| - 1, k);
      } else if k in ElementMap(ns) {
        ElementMapSpec(init, k);
        var i :| LastNamed(init, i, k) && ElementMap(init)[k] == TextContent(init[i]);
        assert LastNamed(ns, i, k);
      }
    }
  }

  /** The nodes `parseResponseXML` reads its table from: the children of the
      document's child number 1 when no group is given, else the children of
      the first element named `group`; `None` where the lookup dereferences
      null. */
  function SelectedChildren(doc: Document, group: string): (r: Option<seq<Node>>)
    ensures group == "" ==> (r.Some? <==> |doc.children| >= 2)
    ensures group != "" ==> (r.Some? <==> ElementsByTagName(doc, group) != [])
  {
    if group == "" then
      if |doc.children| >= 2 then Some(ChildNodes(doc.children[1])) else None
    else
      var es := ElementsByTagName(doc, group);
      if es == [] then None else Some(ChildNodes(es[0]))
  }

  /** `parseResponseXML(xml, group)`: the table of the selected children, and
      the empty table when there is no text, the text does not parse, or the
      selected node is missing. It never fails. */
  function ResponseMap(xml: Option<string>, group: string, parseXml: string -> Option<Document>)
    : (r: map<string, string>)
    ensures r != map[] ==>
      && xml.Some? && parseXml(xml.value).Some?
      && SelectedChildren(parseXml(xml.value).value, group).Some?
      && r == ElementMap(SelectedChildren(parseXml(xml.value).value, group).value)
    ensures xml.Some? && parseXml(xml.value).Some? && SelectedChildren(parseXml(xml.value).value, group).Some? ==>
      r == ElementMap(SelectedChildren(parseXml(xml.value).value, group).value)
  {
    if xml.None? then map[]
    else
      match parseXml(xml.value)
      case None => map[]
      case Some(doc) =>
        match SelectedChildren(doc, group)
        case None => map[]
        case Some(ns) => ElementMap(ns)
  }

  /** `parseResponseXML`, with its loop over the selected children. */
  method ParseResponseXml(xml: Option<string>, group: string, parseXml: string -> Option<Document>)
    returns (table: map<string, string>)
    ensures table == ResponseMap(xml, group, parseXml)
  {
    table := map[];
    if xml.None? {
      return;
    }
    var doc := parseXml(xml.value);
    if doc.None? {
      return;
    }
    var selected := SelectedChildren(doc.value, group);
    if selected.None? {
      return;
    }
    var nodes := selected.value;
    var i := 0;
    while i < |nodes|
      invariant 0 <= i <= |nodes|
      invariant table == ElementMap(nodes[..i])
    {
      var node := nodes[i];
      assert nodes[..i + 1][..i] == nodes[..i];
      if node.Element? {
        table := table[node.name := TextContent(node)];
      }
      i := i + 1;
    }
    assert nodes[..i] == nodes;
  }

  /** With no group the table is read from the document's second child, so a
      reply whose document holds nothing but its root element decodes to the
      empty table, whatever the root holds. */
  lemma SingleRootReadsEmpty(xml: string, root: Node, parseXml: string -> Option<Document>)
    requires parseXml(xml) == Some(Document([root]))
    ensures ResponseMap(Some(xml), "", parseXml) == map[]
  {
  }

  /** With no group and a node before the root element (a comment, say), the
      table is that of the root's children. */
  lemma SecondChildIsRead(xml: string, before: Node, root: Node, rest: seq<Node>,
                          parseXml: string -> Option<Document>)
    requires parseXml(xml) == Some(Document([before, root] + rest))
    ensures ResponseMap(Some(xml), "", parseXml) == ElementMap(ChildNodes(root))
  {
    assert ([before, root] + rest)[1] == root;
  }

  /** With a group that names the root element, the table is that of the
      root's children, whatever elements of that name lie deeper. */
  lemma GroupAtRootIsRead(xml: string, root: Node, group: string, parseXml: string -> Option<Document>)
    requires parseXml(xml) == Some(Document([root]))
    requires group != "" && IsElementNamed(root, group)
    ensures ResponseMap(Some(xml), group, parseXml) == ElementMap(root.children)
  {
    assert [root] + [] == [root];
    FirstNamedIsTopmost(root, [], group);
  }

  // ---------------------------------------------------------- attribute tables

  /** The table the inner loop of `parseResponseGroupsXML` fills from an
      element's attributes: name to value, a later attribute overwriting an
      earlier one of the same name. */
  function AttrMap(attrs: seq<Attr>): map<string, string> {
    if attrs == [] then map[]
    else AttrMap(attrs[..|attrs| - 1])[attrs[|attrs| - 1].name := attrs[|attrs| - 1].value]
  }

  /** Exactly the attribute names are keys, each carrying the value of the
      last attribute with that name. */
  lemma {:induction false} AttrMapSpec(attrs: seq<Attr>, k: string)
    ensures k in AttrMap(attrs) <==> exists i :: 0 <= i < |attrs| && attrs[i].name == k
    ensures k in AttrMap(attrs) ==>
      exists i :: 0 <= i < |attrs| && attrs[i] == Attr(k, AttrMap(attrs)[k])
        && forall j | i < j < |attrs| :: attrs[j].name != k
  {
    if attrs != [] {
      var init := attrs[..|attrs| - 1];
      var a := attrs[|attrs| - 1];
      AttrMapSpec(init, k);
      if a.name != k {
        if k in AttrMap(attrs) {
          var i :| 0 <= i < |init| && init[i] == Attr(k, AttrMap(init)[k])
            && forall j | i < j < |init| :: init[j].name != k;
          assert attrs[i] == init[i];
        }
        if exists i :: 0 <= i < |attrs| && attrs[i].name == k {
          var i :| 0 <= i < |attrs| && attrs[i].name == k;
          assert init[i].name == k;
        }
      }
    }
  }

  /** The inner loop of `parseResponseGroupsXML`. */
  method AttrTable(attrs: seq<Attr>) returns (table: map<string, string>)
    ensures table == AttrMap(attrs)
  {
    table := map[];
    var z := 0;
    while z < |attrs|
      invariant 0 <= z <= |attrs|
      invariant table == AttrMap(attrs[..z])
    {
      assert attrs[..z + 1][..z] == attrs[..z];
      table := table[attrs[z].name := attrs[z].value];
      z := z + 1;
    }
    assert attrs[..z] == attrs;
  }

  /** `parseResponseGroupsXML(xml, group)`: one attribute table per element
      named `group`, in document order; nothing when the text does not parse. */
  function ResponseGroups(xml: string, group: string, parseXml: string -> Option<Document>)
    : (r: seq<map<string, string>>)
    ensures parseXml(xml).Some? ==> |r| == |ElementsByTagName(parseXml(xml).value, group)|
    ensures parseXml(xml).Some? ==>
      forall i | 0 <= i < |r| :: r[i] == AttrMap(AttrsOf(ElementsByTagName(parseXml(xml).value, group)[i]))
    ensures parseXml(xml).None? ==> r == []
  {
    match parseXml(xml)
    case None => []
    case Some(doc) =>
      var es := ElementsByTagName(doc, group);
      seq(|es|, i requires 0 <= i < |es| => AttrMap(AttrsOf(es[i])))
  }

  /** `parseResponseGroupsXML`: the list filled element by element, then
      copied into an array. */
  method ParseResponseGroupsXml(xml: string, group: string, parseXml: string -> Option<Document>)
    returns (arr: array<map<string, string>>)
    ensures fresh(arr)
    ensures arr[..] == ResponseGroups(xml, group, parseXml)
  {
    var found: seq<map<string, string>> := [];
    var doc := parseXml(xml);
    if doc.Some? {
      var nodes := ElementsByTagName(doc.value, group);
      var i := 0;
      while i < |nodes|
        invariant 0 <= i <= |nodes|
        invariant |found| == i
        invariant forall j | 0 <= j < i :: found[j] == AttrMap(AttrsOf(nodes[j]))
      {
        var values := AttrTable(AttrsOf(nodes[i]));
        found := found + [values];
        i := i + 1;
      }
    }
    arr := new map<string, string>[|found|];
    var i := 0;
    while i < |found|
      invariant 0 <= i <= |found|
      invariant arr[..i] == found[..i]
    {
      arr[i] := found[i];
      i := i + 1;
    }
  }

  // ------------------------------------------------------------- scalar lists

  /** `getGroup`'s result: the text of every `number` element, in document
      order. */
  function NumbersOf(doc: Document): (r: seq<string>)
    ensures |r| == |ElementsByTagName(doc, "number")|
    ensures forall i | 0 <= i < |r| :: r[i] == TextContent(ElementsByTagName(doc, "number")[i])
  {
    var es := ElementsByTagName(doc, "number");
    seq(|es|, i requires 0 <= i < |es| => TextContent(es[i]))
  }

  /** The loop of `getGroup` that copies the texts into an array. */
  method NumberTexts(doc: Document) returns (numbers: array<string>)
    ensures fresh(numbers)
    ensures numbers[..] == NumbersOf(doc)
  {
    var nodes := ElementsByTagName(doc, "number");
    numbers := new string[|nodes|];
    var i := 0;
    while i < |nodes|
      invariant 0 <= i <= |nodes|
      invariant numbers[..i] == NumbersOf(doc)[..i]
    {
      numbers[i] := TextContent(nodes[i]);
      i := i + 1;
    }
  }

  /** `getDeliveryReports`' result: the `name` attribute of every `report`
      element, in order; `None` as soon as one has no name (the null
      dereference). */
  function ReportNames(es: seq<Node>): Option<seq<string>> {
    if es == [] then Some([])
    else
      match ReportNames(es[..|es| - 1])
      case None => None
      case Some(names) =>
        match NamedItem(AttrsOf(es[|es| - 1]), "name")
        case None => None
        case Some(n) => Some(names + [n])
  }

  /** The names are read exactly when every report has one, and are then the
      reports' names, one per report, in order. */
  lemma {:induction false} ReportNamesSpec(es: seq<Node>)
    ensures ReportNames(es).Some? <==> forall i | 0 <= i < |es| :: NamedItem(AttrsOf(es[i]), "name").Some?
    ensures ReportNames(es).Some? ==>
      && |ReportNames(es).value| == |es|
      && forall i | 0 <= i < |es| :: ReportNames(es).value[i] == NamedItem(AttrsOf(es[i]), "name").value
  {
    if es != [] {
      var init := es[..|es| - 1];
      ReportNamesSpec(init);
      assert forall i | 0 <= i < |init| :: init[i] == es[i];
    }
  }

  /** Once a prefix of the reports lacks a name, so does the whole list. */
  lemma {:induction false} ReportNamesPrefix(es: seq<Node>, k: nat)
    requires k <= |es| && ReportNames(es[..k]).None?
    ensures ReportNames(es).None?
    decreases |es| - k
  {
    if k < |es| {
      assert es[..k + 1][..k] == es[..k];
      ReportNamesPrefix(es, k + 1);
    } else {
      assert es[..k] == es;
    }
  }

  /** The loop of `getDeliveryReports`. */
  method ReportNameList(doc: Document) returns (r: Result<array<string>>)
    ensures r.Success? <==> ReportNames(ElementsByTagName(doc, "report")).Some?
    ensures r.Success? ==> fresh(r.value) && r.value[..] == ReportNames(ElementsByTagName(doc, "report")).value
  {
    var nodes := ElementsByTagName(doc, "report");
    var reports := new string[|nodes|];
    var i := 0;
    while i < |nodes|
      invariant 0 <= i <= |nodes|
      invariant ReportNames(nodes[..i]) == Some(reports[..i])
    {
      assert nodes[..i + 1][..i] == nodes[..i];
      var node := NamedItem(AttrsOf(nodes[i]), "name");
      if node.None? {
        ReportNamesPrefix(nodes, i + 1);
        return Failure;
      }
      reports[i] := node.value;
      assert reports[..i + 1] == reports[..i] + [node.value];
      i := i + 1;
    }
    assert nodes[..i] == nodes;
    r := Success(reports);
  }

  // ------------------------------------------------------------------ counts

  /** `getCredits` once the reply has parsed: the text of the first `credits`
      element read as a Java `int`, 0 when there is none, a failure when the
      text is not a number. */
  function CreditsOf(doc: Document): (r: Result<int32>)
    ensures ElementsByTagName(doc, "credits") == [] ==> r == Success(0)
    ensures ElementsByTagName(doc, "credits") != [] ==>
      r == OrFail(ParseInt(TextContent(ElementsByTagName(doc, "credits")[0])))
  {
    var es := ElementsByTagName(doc, "credits");
    if es == [] then Success(0) else OrFail(ParseInt(TextContent(es[0])))
  }

  /** `getCredits`' decoding step: an unparsable reply is a failure. */
  function CreditsReply(body: string, parseXml: string -> Option<Document>): Result<int32> {
    match parseXml(body)
    case None => Failure
    case Some(doc) => CreditsOf(doc)
  }

  /** `addNumbersToGroup` once the reply has parsed: the first attribute of
      the first `added` element read as a Java `int`, 0 when there is no such
      element, a failure when it has no attribute or the value is not a
      number. */
  function AddedCountOf(doc: Document): (r: Result<int32>)
    ensures ElementsByTagName(doc, "added") == [] ==> r == Success(0)
    ensures ElementsByTagName(doc, "added") != [] && AttrsOf(ElementsByTagName(doc, "added")[0]) == [] ==> r.Failure?
    ensures ElementsByTagName(doc, "added") != [] && AttrsOf(ElementsByTagName(doc, "added")[0]) != [] ==>
      r == OrFail(ParseInt(AttrsOf(ElementsByTagName(doc, "added")[0])[0].value))
  {
    var es := ElementsByTagName(doc, "added");
    if es == [] then Success(0)
    else
      var attrs := AttrsOf(es[0]);
      if attrs == [] then Failure else OrFail(ParseInt(attrs[0].value))
  }

  /** `addNumbersToGroup`'s decoding step: an unparsable reply is a failure. */
  function AddedReply(body: string, parseXml: string -> Option<Document>): Result<int32> {
    match parseXml(body)
    case None => Failure
    case Some(doc) => AddedCountOf(doc)
  }

  /** A `<response><credits>n</credits></response>` reply decodes to `n`, for
      every Java `int`. */
  lemma CreditsReadBack(n: int32)
    ensures CreditsOf(Document([Element("response", [], [Element("credits", [], [Text(IntToString(n))])])]))
            == Success(n)
  {
    var t := Text(IntToString(n));
    var credits := Element("credits", [], [t]);
    LeavesUnderRoot(Element("response", [], [credits]), "credits");
    assert TextContent(credits) == IntToString(n) by {
      assert ChildrenText([t]) == IntToString(n) + ChildrenText([]);
    }
    ParseIntToString(n);
  }

  /** A reply with no `credits` element anywhere decodes to 0. */
  lemma NoCreditsReadsZero(doc: Document)
    requires forall e <- Preorder(doc.children) :: !IsElementNamed(e, "credits")
    ensures CreditsOf(doc) == Success(0)
  {
    NamedNone(Preorder(doc.children), "credits");
  }

  /** A `<response><added quantity="n"/></response>` reply decodes to `n`,
      for every Java `int` and whatever the attribute is called. */
  lemma AddedReadBack(n: int32, attrName: string)
    ensures AddedCountOf(Document([Element("response", [], [Element("added", [Attr(attrName, IntToString(n))], [])])]))
            == Success(n)
  {
    var added := Element("added", [Attr(attrName, IntToString(n))], []);
    LeavesUnderRoot(Element("response", [], [added]), "added");
    ParseIntToString(n);
  }

  // ------------------------------------------------------------ error table

  /** The `code` attribute of an `error` element, when it has one. */
  function CodeOf(e: Node): Option<string> {
    NamedItem(AttrsOf(e), "code")
  }

  /** Where the error loop stops: the first `error` element without a code
      (the null dereference), or the end. */
  function FirstMissing(es: seq<Node>): (k: nat)
    ensures k <= |es|
    ensures forall j | 0 <= j < k :: CodeOf(es[j]).Some?
    ensures k < |es| ==> CodeOf(es[k]).None?
  {
    if es == [] || CodeOf(es[0]).None? then 0 else 1 + FirstMissing(es[1..])
  }

  /** The table the error loop fills: code to message text, a later code
      overwriting an earlier equal one. */
  function CodeTable(es: seq<Node>): map<string, string>
    requires forall j | 0 <= j < |es| :: CodeOf(es[j]).Some?
  {
    if es == [] then map[]
    else CodeTable(es[..|es| - 1])[CodeOf(es[|es| - 1]).value := TextContent(es[|es| - 1])]
  }

  /** The error table after a status-400 reply whose body parsed to `doc`:
      one entry per `error` element up to the first one without a code. */
  function ErrorTable(doc: Document): map<string, string> {
    var es := ElementsByTagName(doc, "error");
    CodeTable(es[..FirstMissing(es)])
  }

  /** One more `error` element before the first one without a code adds its
      code and message to the table. */
  lemma CodeTableSnoc(es: seq<Node>, i: nat)
    requires i < FirstMissing(es)
    ensures CodeOf(es[i]).Some?
    ensures CodeTable(es[..i + 1]) == CodeTable(es[..i])[CodeOf(es[i]).value := TextContent(es[i])]
  {
    assert es[..i + 1][..i] == es[..i];
  }

  /** The codes are exactly those of the `error` elements read. */
  lemma {:induction false} CodeTableKeys(es: seq<Node>, k: string)
    requires forall j | 0 <= j < |es| :: CodeOf(es[j]).Some?
    ensures k in CodeTable(es) <==> exists i :: 0 <= i < |es| && CodeOf(es[i]) == Some(k)
  {
    if es != [] {
      var init := es[..|es| - 1];
      assert forall j | 0 <= j < |init| :: init[j] == es[j];
      CodeTableKeys(init, k);
      var last := |es| - 1;
      var c, t := CodeOf(es[last]).value, TextContent(es[last]);
      assert CodeTable(es) == CodeTable(init)[c := t];
      if k in CodeTable(es) && k != c {
        var i :| 0 <= i < |init| && CodeOf(init[i]) == Some(k);
        assert CodeOf(es[i]) == Some(k);
      }
      if exists i :: 0 <= i < |es| && CodeOf(es[i]) == Some(k) {
        var i :| 0 <= i < |es| && CodeOf(es[i]) == Some(k);
        if i < |init| {
          assert CodeOf(init[i]) == Some(k);
        }
      }
    }
  }

  /** `es[i]` is the last error element read with code `k`. */
  predicate LastWithCode(es: seq<Node>, i: int, k: string) {
    && 0 <= i < |es| && CodeOf(es[i]) == Some(k)
    && forall j | i < j < |es| :: CodeOf(es[j]) != Some(k)
  }

  /** Each code is mapped to the text of the last element carrying it. */
  lemma {:induction false} CodeTableValues(es: seq<Node>, k: string)
    requires forall j | 0 <= j < |es| :: CodeOf(es[j]).Some?
    requires k in CodeTable(es)
    ensures exists i :: LastWithCode(es, i, k) && CodeTable(es)[k] == TextContent(es[i])
  {
    var init := es[..|es| - 1];
    var e := es[|es| - 1];
    if CodeOf(e) == Some(k) {
      assert LastWithCode(es, |es| - 1, k);
    } else {
      assert forall j | 0 <= j < |init| :: init[j] == es[j];
      CodeTableValues(init, k);
      var i :| LastWithCode(init, i, k) && CodeTable(init)[k] == TextContent(init[i]);
      assert LastWithCode(es, i, k);
    }
  }

  /** The gateway's own example of a status-400 body: two errors, read in
      order into a table with their two codes. */
  lemma TwoErrorsExample(e1: Node, e2: Node)
    requires e1 == Element("error", [Attr("code", "1001")], [Text("Invalid username")])
    requires e2 == Element("error", [Attr("code", "1002")], [Text("Invalid password")])
    ensures ErrorTable(Document([Element("errors", [], [e1, e2])]))
            == map["1001" := "Invalid username", "1002" := "Invalid password"]
  {
    LeavesUnderRoot(Element("errors", [], [e1, e2]), "error");
    var es := [e1, e2];
    assert CodeOf(e1) == Some("1001");
    assert CodeOf(e2) == Some("1002");
    assert TextContent(e1) == "Invalid username" by {
      assert ChildrenText([Text("Invalid username")]) == "Invalid username" + ChildrenText([]);
    }
    assert TextContent(e2) == "Invalid password" by {
      assert ChildrenText([Text("Invalid password")]) == "Invalid password" + ChildrenText([]);
    }
    assert FirstMissing(es) == 2 by {
      assert es[1..] == [e2] && [e2][1..] == [];
    }
    assert es[..2] == es && es[..1] == [e1];
    assert CodeTable([e1]) == map["1001" := "Invalid username"] by {
      assert [e1][..0] == [];
    }
  }

  // --------------------------------------------------------- delivery reports

  /** One row: the five attributes of a row element, `None` as soon as one is
      missing. */
  function RowOf(attrs: seq<Attr>): (r: Option<map<string, string>>)
    ensures r.Some? <==> forall k <- RowKeys :: NamedItem(attrs, k).Some?
    ensures r.Some? ==> r.value.Keys == set k <- RowKeys
    ensures r.Some? ==> forall k <- RowKeys :: r.value[k] == NamedItem(attrs, k).value
  {
    var lastUpdated := NamedItem(attrs, "last_updated");
    var mobileNumber := NamedItem(attrs, "mobile_number");
    var messageId := NamedItem(attrs, "message_id");
    var status := NamedItem(attrs, "status");
    var custom := NamedItem(attrs, "custom");
    assert "last_updated" in RowKeys && "mobile_number" in RowKeys && "message_id" in RowKeys;
    assert "status" in RowKeys && "custom" in RowKeys;
    if lastUpdated.None? || mobileNumber.None? || messageId.None? || status.None? || custom.None? then None
    else Some(RowTable(lastUpdated.value, mobileNumber.value, messageId.value, status.value, custom.value))
  }

  /** The element nodes of `ns`, in order: the children whose attribute map
      is not null. */
  function ElementsIn(ns: seq<Node>): (r: seq<Node>)
    ensures forall e <- r :: e.Element? && e in ns
    ensures forall n <- ns :: n.Element? ==> n in r
  {
    if ns == [] then []
    else ElementsIn(ns[..|ns| - 1]) + (if Attributes(ns[|ns| - 1]).Some? then [ns[|ns| - 1]] else [])
  }

  /** The rows of a report element's children: one per child element, in
      order; `None` as soon as one lacks a row attribute. */
  function RowsOf(ns: seq<Node>): Option<seq<map<string, string>>> {
    if ns == [] then Some([])
    else
      match RowsOf(ns[..|ns| - 1])
      case None => None
      case Some(rows) =>
        match Attributes(ns[|ns| - 1])
        case None => Some(rows)
        case Some(attrs) =>
          match RowOf(attrs)
          case None => None
          case Some(row) => Some(rows + [row])
  }

  /** Rows are read exactly when every child element has all five row
      attributes, and are then one per child element, in order; text and
      comments between them add nothing. */
  lemma {:induction false} RowsOfSpec(ns: seq<Node>)
    ensures RowsOf(ns).Some? <==> forall n <- ns :: n.Element? ==> RowOf(n.attrs).Some?
    ensures RowsOf(ns).Some? ==>
      && |RowsOf(ns).value| == |ElementsIn(ns)|
      && forall i | 0 <= i < |ElementsIn(ns)| :: RowsOf(ns).value[i] == RowOf(ElementsIn(ns)[i].attrs).value
  {
    if ns != [] {
      var init := ns[..|ns| - 1];
      var n := ns[|ns| - 1];
      RowsOfSpec(init);
      assert ns == init + [n];
      assert forall m <- ns :: m in init || m == n;
    }
  }

  /** Once a prefix of the children fails, so does the whole list. */
  lemma {:induction false} RowsOfPrefix(ns: seq<Node>, k: nat)
    requires k <= |ns| && RowsOf(ns[..k]).None?
    ensures RowsOf(ns).None?
    decreases |ns| - k
  {
    if k < |ns| {
      assert ns[..k + 1][..k] == ns[..k];
      RowsOfPrefix(ns, k + 1);
    } else {
      assert ns[..k] == ns;
    }
  }

  /** One report: its `name`, `last_updated` and `extension` attributes, the
      timestamp read by `parseDate`, and the rows of its children; `None`
      when an attribute is missing, the timestamp does not read, or a row
      fails. */
  function ReportOf(e: Node, parseDate: string -> Option<Date>): Option<ReportData> {
    var name := NamedItem(AttrsOf(e), "name");
    var update := NamedItem(AttrsOf(e), "last_updated");
    var extension := NamedItem(AttrsOf(e), "extension");
    if name.None? || update.None? || extension.None? then None
    else
      match parseDate(update.value)
      case None => None
      case Some(when) =>
        match RowsOf(ChildNodes(e))
        case None => None
        case Some(rows) => Some(ReportData(name.value, when, extension.value, rows))
  }

  /** The reports of the `report` elements `es`, in order; `None` as soon as
      one fails. */
  function ReportsOf(es: seq<Node>, parseDate: string -> Option<Date>): Option<seq<ReportData>> {
    if es == [] then Some([])
    else
      match ReportsOf(es[..|es| - 1], parseDate)
      case None => None
      case Some(reports) =>
        match ReportOf(es[|es| - 1], parseDate)
        case None => None
        case Some(report) => Some(reports + [report])
  }

  /** Reports are read exactly when every `report` element reads. */
  lemma {:induction false} ReportsOfSucceeds(es: seq<Node>, parseDate: string -> Option<Date>)
    ensures ReportsOf(es, parseDate).Some? <==> forall i | 0 <= i < |es| :: ReportOf(es[i], parseDate).Some?
  {
    if ReportsOf(es, parseDate).Some? {
      ReportsOfInOrder(es, parseDate);
    } else if es != [] {
      var init := es[..|es| - 1];
      ReportsOfSucceeds(init, parseDate);
      if ReportsOf(init, parseDate).None? {
        var i :| 0 <= i < |init| && ReportOf(init[i], parseDate).None?;
        assert init[i] == es[i];
      }
    }
  }

  /** When read, the reports are one per element, in order. */
  lemma ReportsOfInOrder(es: seq<Node>, parseDate: string -> Option<Date>)
    requires ReportsOf(es, parseDate).Some?
    ensures |ReportsOf(es, parseDate).value| == |es|
    ensures forall i | 0 <= i < |es| ::
      ReportOf(es[i], parseDate).Some? && ReportsOf(es, parseDate).value[i] == ReportOf(es[i], parseDate).value
  {
    if es == [] {
    } else {
      ReportsOfAt(es, 0, parseDate);
    }
    forall i | 0 <= i < |es|
      ensures ReportOf(es[i], parseDate).Some? && ReportsOf(es, parseDate).value[i] == ReportOf(es[i], parseDate).value
    {
      ReportsOfAt(es, i, parseDate);
    }
  }

  /** The report at position `i` of a read list is the one element `i` reads. */
  lemma {:induction false} ReportsOfAt(es: seq<Node>, i: nat, parseDate: string -> Option<Date>)
    requires ReportsOf(es, parseDate).Some? && i < |es|
    ensures |ReportsOf(es, parseDate).value| == |es|
    ensures ReportOf(es[i], parseDate).Some? && ReportsOf(es, parseDate).value[i] == ReportOf(es[i], parseDate).value
  {
    var init := es[..|es| - 1];
    if i < |init| {
      ReportsOfAt(init, i, parseDate);
      assert init[i] == es[i];
    } else if init != [] {
      ReportsOfAt(init, 0, parseDate);
    }
  }

  /** Once a prefix of the reports fails, so does the whole list. */
  lemma {:induction false} ReportsOfPrefix(es: seq<Node>, k: nat, parseDate: string -> Option<Date>)
    requires k <= |es| && ReportsOf(es[..k], parseDate).None?
    ensures ReportsOf(es, parseDate).None?
    decreases |es| - k
  {
    if k < |es| {
      assert es[..k + 1][..k] == es[..k];
      ReportsOfPrefix(es, k + 1, parseDate);
    } else {
      assert es[..k] == es;
    }
  }

  /** `parseDeliveryReport(xml)`: the reports of every `report` element of the
      parsed reply; an unparsable reply is a failure. */
  function DeliveryReportsOf(xml: string, parseXml: string -> Option<Document>,
                             parseDate: string -> Option<Date>): Option<seq<ReportData>>
  {
    match parseXml(xml)
    case None => None
    case Some(doc) => ReportsOf(ElementsByTagName(doc, "report"), parseDate)
  }

  /** A child element missing any one of the five row attributes makes its
      whole report fail, so no row is ever read with a field left out. */
  lemma MissingRowAttributeFails(e: Node, parseDate: string -> Option<Date>, i: nat, key: string)
    requires e.Element? && i < |e.children| && e.children[i].Element?
    requires key in RowKeys && NamedItem(e.children[i].attrs, key).None?
    ensures ReportOf(e, parseDate).None?
  {
    RowsOfSpec(e.children);
    assert e.children[i] in e.children;
  }

  /** The inner loop of `parseDeliveryReport`: one row added per child
      element. */
  method AddRows(report: DeliveryReport, children: seq<Node>) returns (ok: bool)
    modifies report`rows
    ensures ok <==> RowsOf(children).Some?
    ensures ok ==> report.rows == old(report.rows) + RowsOf(children).value
  {
    var z := 0;
    while z < |children|
      invariant 0 <= z <= |children|
      invariant RowsOf(children[..z]).Some?
      invariant report.rows == old(report.rows) + RowsOf(children[..z]).value
    {
      assert children[..z + 1][..z] == children[..z];
      var row := Attributes(children[z]);
      if row.Some? {
        var attrs := row.value;
        var rowUpdate := NamedItem(attrs, "last_updated");
        var mobileNumber := NamedItem(attrs, "mobile_number");
        var messageId := NamedItem(attrs, "message_id");
        var status := NamedItem(attrs, "status");
        var custom := NamedItem(attrs, "custom");
        if rowUpdate.None? || mobileNumber.None? || messageId.None? || status.None? || custom.None? {
          RowsOfPrefix(children, z + 1);
          return false;
        }
        report.AddRow(rowUpdate.value, mobileNumber.value, messageId.value, status.value, custom.value);
      }
      z := z + 1;
    }
    assert children[..z] == children;
    ok := true;
  }

  /** One pass of `parseDeliveryReport`'s outer loop: a new report from the
      element's attributes, filled with the rows of its children. */
  method ReadReport(node: Node, parseDate: string -> Option<Date>) returns (r: Option<DeliveryReport>)
    ensures r.Some? <==> ReportOf(node, parseDate).Some?
    ensures r.Some? ==> fresh(r.value) && r.value.Value() == ReportOf(node, parseDate).value
  {
    var attrs := AttrsOf(node);
    var repName := NamedItem(attrs, "name");
    var update := NamedItem(attrs, "last_updated");
    var extension := NamedItem(attrs, "extension");
    if repName.None? || update.None? || extension.None? {
      return None;
    }
    var made := DeliveryReport.WithTimestamp(repName.value, update.value, extension.value, parseDate);
    if made.None? {
      return None;
    }
    var report := made.value;
    var ok := AddRows(report, ChildNodes(node));
    if !ok {
      return None;
    }
    r := Some(report);
  }

  lemma ReportsOfSnoc(es: seq<Node>, k: nat, parseDate: string -> Option<Date>)
    requires k < |es| && ReportsOf(es[..k], parseDate).Some? && ReportOf(es[k], parseDate).Some?
    ensures ReportsOf(es[..k + 1], parseDate)
            == Some(ReportsOf(es[..k], parseDate).value + [ReportOf(es[k], parseDate).value])
  {
    assert es[..k + 1][..k] == es[..k];
  }

  /** `parseDeliveryReport`: one new `DeliveryReport` per `report` element,
      filled with its rows; any parse failure, missing attribute or unreadable
      timestamp fails the whole call. */
  method ParseDeliveryReport(xml: string, parseXml: string -> Option<Document>,
                             parseDate: string -> Option<Date>)
    returns (r: Result<array<DeliveryReport>>)
    ensures r.Success? <==> DeliveryReportsOf(xml, parseXml, parseDate).Some?
    ensures r.Success? ==> fresh(r.value)
    ensures r.Success? ==> |DeliveryReportsOf(xml, parseXml, parseDate).value| == r.value.Length
    ensures r.Success? ==>
      forall i | 0 <= i < r.value.Length ::
        fresh(r.value[i]) && r.value[i].Value() == DeliveryReportsOf(xml, parseXml, parseDate).value[i]
  {
    var doc := parseXml(xml);
    if doc.None? {
      return Failure;
    }
    var reports := ReadReports(ElementsByTagName(doc.value, "report"), parseDate);
    if reports.None? {
      return Failure;
    }
    var found := reports.value;
    var arr := new DeliveryReport[|found|](j requires 0 <= j < |found| => found[j]);
    r := Success(arr);
  }

  /** The outer loop of `parseDeliveryReport`: one new report per element,
      stopping with a failure at the first element that does not read. */
  method ReadReports(nodes: seq<Node>, parseDate: string -> Option<Date>)
    returns (r: Option<seq<DeliveryReport>>)
    ensures r.Some? <==> ReportsOf(nodes, parseDate).Some?
    ensures r.Some? ==>
      && |r.value| == |ReportsOf(nodes, parseDate).value|
      && forall j | 0 <= j < |r.value| :: fresh(r.value[j]) && r.value[j].Value() == ReportsOf(nodes, parseDate).value[j]
  {
    var reports: seq<DeliveryReport> := [];
    ghost var read: seq<ReportData> := [];
    var i := 0;
    while i < |nodes|
      invariant 0 <= i <= |nodes|
      invariant ReportsOf(nodes[..i], parseDate) == Some(read)
      invariant |reports| == i == |read|
      invariant forall j | 0 <= j < i :: fresh(reports[j]) && reports[j].Value() == read[j]
    {
      var report := ReadReport(nodes[i], parseDate);
      if report.None? {
        ReportsOfPrefix(nodes, i + 1, parseDate);
        return None;
      }
      ReportsOfSnoc(nodes, i, parseDate);
      reports := reports + [report.value];
      read := read + [report.value.Value()];
      i := i + 1;
    }
    assert nodes[..i] == nodes;
    r := Some(reports);
  }
}
