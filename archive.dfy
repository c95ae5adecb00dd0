/** Values and reference definitions for the PDF listing that `getPDFlist`
    (waybackPDF.py) derives from a Wayback Machine timemap: the target URL,
    the zip of each data row with the header row, the exact-match MIME filter
    and the direct archive link formula.  The loops that compute these are in
    module WaybackPdf; the facts relating them are in module ArchiveLemmas. */
module Archive {

  /** One row of the decoded timemap table. */
  type Row = seq<string>
  /** The decoded timemap: row 0 names the columns, later rows are captures. */
  type Table = seq<Row>
  /** A file record: column name to value, built from one data row. */
  type Record = map<string, string>
  /** A result entry: the one-key dictionary {"pdffile": url}. */
  type Entry = map<string, string>

  datatype Option<T> = None | Some(value: T)

  /** What the timemap request yields: a transport-level failure of the
      request, or the decoded JSON table. */
  datatype Response = TransportError | Decoded(table: Table)

  /** The exceptions the pipeline raises on a decoded table. */
  datatype Fault =
    | EmptyTable              // IndexError: the table has no header row
    | ShortRow                // IndexError: a data row has fewer fields than the header
    | MissingKey(key: string) // KeyError: a record lacks a column it is read by

  datatype Result<T> = Ok(value: T) | Err(fault: Fault)

  const HttpsScheme: string := "https://"
  const HttpScheme: string := "http://"

  const Mimetype: string := "mimetype"
  const Timestamp: string := "timestamp"
  const Original: string := "original"
  const PdfMime: string := "application/pdf"
  const PdfFileKey: string := "pdffile"

  /** The archive base path and the infix that asks for the raw capture. */
  const ArchiveWeb: string := "https://web.archive.org/web/"
  const RawInfix: string := "if_/"

  // ---------------------------------------------------------------------
  // Target URL
  // ---------------------------------------------------------------------

  /** Python truthiness of the `--http` option, a string or None: absent
      and empty are false, any other string is true. */
  predicate Truthy(http: Option<string>) {
    http.Some? && http.value != ""
  }

  /** The prefix the timemap query asks for: the domain behind the HTTPS
      scheme, or behind the HTTP scheme when `--http` is truthy.  The domain
      itself is neither checked nor altered. */
  function TargetUrl(domain: string, http: Option<string>): (url: string)
    ensures |url| > |domain| && url[|url| - |domain|..] == domain
    ensures Truthy(http) <==> url[..|url| - |domain|] == HttpScheme
    ensures !Truthy(http) <==> url[..|url| - |domain|] == HttpsScheme
  {
    if Truthy(http) then HttpScheme + domain else HttpsScheme + domain
  }

  // ---------------------------------------------------------------------
  // Normalisation: header row zipped with each data row
  // ---------------------------------------------------------------------

  /** Every data row has a field for every header column. */
  predicate Covers(headers: Row, rows: seq<Row>) {
    forall k :: 0 <= k < |rows| ==> |headers| <= |rows[k]|
  }

  /** The record built from one data row: column i is stored under
      headers[i], from left to right, so a repeated header name keeps the
      value of its last column and fields past the header are ignored. */
  function ZipRow(headers: Row, row: Row): (rec: Record)
    requires |headers| <= |row|
    ensures forall key :: key in rec <==> key in headers
  {
    if headers == [] then map[]
    else
      var n := |headers| - 1;
      ZipRow(headers[..n], row)[headers[n] := row[n]]
  }

  /** The index of the last column named `key`. */
  function Column(headers: Row, key: string): (i: nat)
    requires key in headers
    ensures i < |headers| && headers[i] == key
    ensures forall j :: i < j < |headers| ==> headers[j] != key
  {
    var n := |headers| - 1;
    if headers[n] == key then n else Column(headers[..n], key)
  }

  /** One record per data row, in row order. */
  function ZipRows(headers: Row, rows: seq<Row>): (recs: seq<Record>)
    requires Covers(headers, rows)
    ensures |recs| == |rows|
  {
    if rows == [] then []
    else
      var n := |rows| - 1;
      ZipRows(headers, rows[..n]) + [ZipRow(headers, rows[n])]
  }

  /** The outcome of lines 74-81: the header row must exist and every data
      row must be long enough. */
  function Normalized(raw: Table): Result<seq<Record>> {
    if |raw| == 0 then Err(EmptyTable)
    else if Covers(raw[0], raw[1..]) then Ok(ZipRows(raw[0], raw[1..]))
    else Err(ShortRow)
  }

  // ---------------------------------------------------------------------
  // Filter: exact match on the MIME type
  // ---------------------------------------------------------------------

  /** Every record has `key`. */
  predicate HasKey(recs: seq<Record>, key: string) {
    forall k :: 0 <= k < |recs| ==> key in recs[k]
  }

  /** The record's MIME type is exactly "application/pdf". */
  predicate IsPdf(rec: Record)
    requires Mimetype in rec
  {
    rec[Mimetype] == PdfMime
  }

  /** The PDF records, in their original order, duplicates kept. */
  function FilterPdf(recs: seq<Record>): (pdfs: seq<Record>)
    requires HasKey(recs, Mimetype)
    ensures |pdfs| <= |recs|
    ensures HasKey(pdfs, Mimetype)
    ensures forall k :: 0 <= k < |pdfs| ==> IsPdf(pdfs[k])
  {
    if recs == [] then []
    else
      var n := |recs| - 1;
      FilterPdf(recs[..n]) + (if IsPdf(recs[n]) then [recs[n]] else [])
  }

  /** The outcome of lines 83-87: every record is read by its MIME type. */
  function Selected(recs: seq<Record>): Result<seq<Record>> {
    if HasKey(recs, Mimetype) then Ok(FilterPdf(recs)) else Err(MissingKey(Mimetype))
  }

  // ---------------------------------------------------------------------
  // Derivation of the direct archive links
  // ---------------------------------------------------------------------

  /** The direct link to the raw capture of `original` taken at `timestamp`. */
  function PdfUrl(timestamp: string, original: string): string {
    ArchiveWeb + timestamp + RawInfix + original
  }

  /** The result entry for one PDF record. */
  function EntryFor(pdf: Record): Entry
    requires Timestamp in pdf && Original in pdf
  {
    map[PdfFileKey := PdfUrl(pdf[Timestamp], pdf[Original])]
  }

  /** One entry per PDF record, in order. */
  function Derive(pdfs: seq<Record>): (entries: seq<Entry>)
    requires HasKey(pdfs, Timestamp) && HasKey(pdfs, Original)
    ensures |entries| == |pdfs|
  {
    if pdfs == [] then []
    else
      var n := |pdfs| - 1;
      Derive(pdfs[..n]) + [EntryFor(pdfs[n])]
  }

  /** The key of the first failing lookup of the link loop: for the first
      record lacking a field, "timestamp" if it lacks that one (it is read
      first), else "original". */
  function MissingUrlField(pdfs: seq<Record>): (key: Option<string>)
    ensures key == None <==> HasKey(pdfs, Timestamp) && HasKey(pdfs, Original)
    ensures key.Some? ==> key.value == Timestamp || key.value == Original
  {
    if pdfs == [] then None
    else if Timestamp !in pdfs[0] then Some(Timestamp)
    else if Original !in pdfs[0] then Some(Original)
    else MissingUrlField(pdfs[1..])
  }

  /** The outcome of lines 89-100. */
  function Derived(pdfs: seq<Record>): Result<seq<Entry>> {
    match MissingUrlField(pdfs)
    case Some(key) => Err(MissingKey(key))
    case None => Ok(Derive(pdfs))
  }

  /** The outcome of `getPDFlist` once the response is in hand: a transport
      failure gives the empty list; a decoded table goes through the three
      stages, the first fault ending the run. */
  function PdfList(resp: Response): Result<seq<Entry>> {
    match resp
    case TransportError => Ok([])
    case Decoded(raw) =>
      match Normalized(raw)
      case Err(f) => Err(f)
      case Ok(recs) =>
        match Selected(recs)
        case Err(f) => Err(f)
        case Ok(pdfs) => Derived(pdfs)
  }

  // ---------------------------------------------------------------------
  // Reference definitions on the rows themselves
  // ---------------------------------------------------------------------

  /** The data rows whose (last) MIME type column holds "application/pdf". */
  function PdfRows(headers: Row, rows: seq<Row>): (pdfRows: seq<Row>)
    requires Covers(headers, rows) && Mimetype in headers
    ensures |pdfRows| <= |rows|
    ensures Covers(headers, pdfRows)
    ensures forall k :: 0 <= k < |pdfRows| ==> pdfRows[k][Column(headers, Mimetype)] == PdfMime
  {
    if rows == [] then []
    else
      var n := |rows| - 1;
      var keep := rows[n][Column(headers, Mimetype)] == PdfMime;
      PdfRows(headers, rows[..n]) + (if keep then [rows[n]] else [])
  }

  /** The link for each row, read straight from its timestamp and original
      columns. */
  function RowUrls(headers: Row, rows: seq<Row>): (entries: seq<Entry>)
    requires Covers(headers, rows) && Timestamp in headers && Original in headers
    ensures |entries| == |rows|
  {
    if rows == [] then []
    else
      var n := |rows| - 1;
      var url := PdfUrl(rows[n][Column(headers, Timestamp)], rows[n][Column(headers, Original)]);
      RowUrls(headers, rows[..n]) + [map[PdfFileKey := url]]
  }

  // ---------------------------------------------------------------------
  // Reading a link back
  // ---------------------------------------------------------------------

  predicate IsDigit(c: char) {
    '0' <= c <= '9'
  }

  predicate IsDigits(s: string) {
    forall i :: 0 <= i < |s| ==> IsDigit(s[i])
  }

  /** The length of the longest all-digit prefix of `s`. */
  function DigitRun(s: string): (n: nat)
    ensures n <= |s| && IsDigits(s[..n])
    ensures n < |s| ==> !IsDigit(s[n])
  {
    if s == [] || !IsDigit(s[0]) then 0 else 1 + DigitRun(s[1..])
  }

  /** Splits a direct archive link into its timestamp and original URL,
      taking the timestamp to be the digits after the base path. */
  function ParsePdfUrl(url: string): Option<(string, string)> {
    if |url| < |ArchiveWeb| || url[..|ArchiveWeb|] != ArchiveWeb then None
    else
      var rest := url[|ArchiveWeb|..];
      var n := DigitRun(rest);
      var tail := rest[n..];
      if |tail| < |RawInfix| || tail[..|RawInfix|] != RawInfix then None
      else Some((rest[..n], tail[|RawInfix|..]))
  }
}
