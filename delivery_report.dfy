/** `DeliveryReport`: the metadata of one delivery report (name, time of the
    last update, file extension) and its rows, one table per message with the
    keys `last_updated`, `mobile_number`, `message_id`, `status` and
    `custom`. Rows are only ever appended. */
module Reports {
  import opened Wrappers

  /** `java.util.Date`: an instant, in milliseconds since the epoch. */
  datatype Date = Date(millis: int)

  /** The keys of every row, in the order `addRow` puts them. */
  const RowKeys: seq<string> := ["last_updated", "mobile_number", "message_id", "status", "custom"]

  /** The table `addRow` builds from its five arguments. */
  function RowTable(lastUpdated: string, mobileNumber: string, messageId: string,
                    status: string, custom: string): (row: map<string, string>)
    ensures row.Keys == set k <- RowKeys
    ensures row[RowKeys[0]] == lastUpdated && row[RowKeys[1]] == mobileNumber
    ensures row[RowKeys[2]] == messageId && row[RowKeys[3]] == status && row[RowKeys[4]] == custom
  {
    map["last_updated" := lastUpdated, "mobile_number" := mobileNumber,
        "message_id" := messageId, "status" := status, "custom" := custom]
  }

  /** The value of a report: what a `DeliveryReport` object holds. */
  datatype ReportData = ReportData(name: string, lastUpdate: Date, extension: string,
                                   rows: seq<map<string, string>>)

  class DeliveryReport {
    var name: string
    var lastUpdate: Date
    var extension: string
    var rows: seq<map<string, string>>

    function Value(): ReportData
      reads this
    {
      ReportData(name, lastUpdate, extension, rows)
    }

    /** `DeliveryReport(String name, Date lastUpdate, String extension)`. */
    constructor (name: string, lastUpdate: Date, extension: string)
      ensures Value() == ReportData(name, lastUpdate, extension, [])
    {
      this.name := name;
      this.lastUpdate := lastUpdate;
      this.extension := extension;
      rows := [];
    }

    /** `DeliveryReport()`: empty name and extension, stamped with the clock's
        current time `now`. */
    constructor Blank(now: Date)
      ensures Value() == ReportData("", now, "", [])
    {
      name := "";
      lastUpdate := now;
      extension := "";
      rows := [];
    }

    /** `DeliveryReport(String name, String lastUpdate, String extension)`:
        the time is read with the pattern `yyyy-MM-dd'T'HH:mm:ss`
        (`parseDate`); text it cannot read is a ParseException and no report
        is made. */
    static method WithTimestamp(name: string, lastUpdate: string, extension: string,
                                parseDate: string -> Option<Date>)
      returns (r: Option<DeliveryReport>)
      ensures r.Some? <==> parseDate(lastUpdate).Some?
      ensures r.Some? ==> fresh(r.value)
      ensures r.Some? ==> r.value.Value() == ReportData(name, parseDate(lastUpdate).value, extension, [])
    {
      var when := parseDate(lastUpdate);
      if when.None? {
        return None;
      }
      var report := new DeliveryReport(name, when.value, extension);
      r := Some(report);
    }

    method SetName(name: string)
      modifies this`name
      ensures Value() == old(Value()).(name := name)
    {
      this.name := name;
    }

    method SetLastUpdate(lastUpdate: Date)
      modifies this`lastUpdate
      ensures Value() == old(Value()).(lastUpdate := lastUpdate)
    {
      this.lastUpdate := lastUpdate;
    }

    method SetExtension(extension: string)
      modifies this`extension
      ensures Value() == old(Value()).(extension := extension)
    {
      this.extension := extension;
    }

    /** Appends one row; the rows already there stay as they were. */
    method AddRow(lastUpdated: string, mobileNumber: string, messageId: string,
                  status: string, custom: string)
      modifies this`rows
      ensures Value() == old(Value()).(rows := old(rows) + [RowTable(lastUpdated, mobileNumber, messageId, status, custom)])
    {
      var row := RowTable(lastUpdated, mobileNumber, messageId, status, custom);
      rows := rows + [row];
    }

    /** `getRows()`: a new array holding the rows in order. */
    method GetRows() returns (arr: array<map<string, string>>)
      ensures fresh(arr)
      ensures arr[..] == rows
    {
      arr := new map<string, string>[|rows|];
      var i := 0;
      while i < |rows|
        invariant 0 <= i <= |rows|
        invariant arr[..i] == rows[..i]
      {
        arr[i] := rows[i];
        i := i + 1;
      }
    }
  }
}
