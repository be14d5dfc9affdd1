/**
 * The contact loader (`read_contacts`): turns the rows of the contacts CSV
 * into contact records, keeping only rows whose `Phone` value is present
 * and non-empty, in file order.
 */
module Contacts {
  import opened Optional
  import opened Selection

  /**
   * One parsed CSV row: column name to cell value. A cell is `None` when the
   * row is shorter than the header.
   */
  type Row = map<string, Option<string>>

  /** A contact record; the name may be missing, the phone is never empty. */
  datatype Contact = Contact(name: Option<string>, phone: string)

  /**
   * The contacts file as the loader sees it: not found, or the rows the
   * reader yields, where `failsAt == Some(k)` means the reader raises when
   * asked for row `k` (k = 0 covers a failure when opening or decoding).
   */
  datatype CsvFile = NoCsvFile | CsvRows(rows: seq<Row>, failsAt: Option<nat>)

  /** `row.get(column)`: an absent column and an absent value both read as `None`. */
  function Field(row: Row, column: string): Option<string> {
    if column in row then row[column] else None
  }

  /** `not phone` is false: the phone is present and not the empty string. */
  predicate HasPhone(row: Row) {
    Field(row, "Phone").Some? && Field(row, "Phone").value != ""
  }

  /** The record built from a row (meaningful for rows with a phone). */
  function ToContact(row: Row): Contact {
    Contact(Field(row, "Name"), if HasPhone(row) then Field(row, "Phone").value else "")
  }

  /** The contacts that reading all of `rows` yields. */
  function KeptContacts(rows: seq<Row>): seq<Contact> {
    Select(HasPhone, ToContact, rows)
  }

  /** The rows the loop visits before the reader stops or raises. */
  function RowsRead(file: CsvFile): seq<Row> {
    match file
    case NoCsvFile => []
    case CsvRows(rows, failsAt) =>
      if failsAt.Some? && failsAt.value < |rows| then rows[..failsAt.value] else rows
  }

  /**
   * read_contacts: a missing file gives no contacts; a read error gives the
   * contacts appended before it, a prefix of what a full read gives.
   */
  method ReadContacts(file: CsvFile) returns (contacts: seq<Contact>)
    ensures contacts == KeptContacts(RowsRead(file))
    ensures file.NoCsvFile? ==> contacts == []
    ensures file.CsvRows? ==> |contacts| <= |file.rows|
    ensures file.CsvRows? ==> contacts <= KeptContacts(file.rows)
    ensures file.CsvRows? && file.failsAt.None? ==> contacts == KeptContacts(file.rows)
  {
    contacts := [];
    if file.NoCsvFile? {
      return;
    }
    var rows := file.rows;
    var i := 0;
    while i < |rows|
      invariant 0 <= i <= |rows|
      invariant file.failsAt.Some? ==> i <= file.failsAt.value
      invariant contacts == KeptContacts(rows[..i])
    {
      if file.failsAt == Some(i) {
        break;
      }
      var row := rows[i];
      var name := Field(row, "Name");
      var phone := Field(row, "Phone");
      assert rows[..i + 1][..i] == rows[..i];
      if phone.Some? && phone.value != "" {
        contacts := contacts + [Contact(name, phone.value)];
      }
      i := i + 1;
    }
    assert RowsRead(file) == rows[..i];
    SelectPrefix(HasPhone, ToContact, rows, i);
    assert rows[..|rows|] == rows;
  }

  /**
   * Exactly the rows with a present, non-empty phone are kept, each once and
   * in source order (Positions lists their indices increasingly), and each
   * contact carries its row's `Name` and its row's `Phone` string unchanged.
   */
  lemma KeptContactsAre(rows: seq<Row>)
    ensures |KeptContacts(rows)| == |Positions(HasPhone, rows)|
    ensures forall j :: 0 <= j < |Positions(HasPhone, rows)| ==>
              var row := rows[Positions(HasPhone, rows)[j]];
              HasPhone(row) &&
              KeptContacts(rows)[j] == Contact(Field(row, "Name"), Field(row, "Phone").value)
    ensures forall j, k :: 0 <= j < k < |Positions(HasPhone, rows)| ==>
              Positions(HasPhone, rows)[j] < Positions(HasPhone, rows)[k]
    ensures forall i :: 0 <= i < |rows| && HasPhone(rows[i]) ==> i in Positions(HasPhone, rows)
  {
    SelectAt(HasPhone, ToContact, rows);
    PositionsExact(HasPhone, rows);
  }

  /** Every loaded contact has a non-empty phone. */
  lemma KeptPhonesNonEmpty(rows: seq<Row>)
    ensures forall c :: c in KeptContacts(rows) ==> c.phone != ""
  {
    KeptContactsAre(rows);
    forall c | c in KeptContacts(rows) ensures c.phone != "" {
      var j :| 0 <= j < |KeptContacts(rows)| && KeptContacts(rows)[j] == c;
    }
  }

  /** A file with no row carrying a phone yields no contacts. */
  lemma NoPhoneNoContacts(rows: seq<Row>)
    ensures KeptContacts(rows) == [] <==> forall i :: 0 <= i < |rows| ==> !HasPhone(rows[i])
  {
    SelectEmpty(HasPhone, ToContact, rows);
  }
}
