/** Facts about the reference definitions of module Archive: what a zipped
    record holds, what the MIME filter keeps, what each link is, and the
    whole pipeline stated on the rows of the table. */
module ArchiveLemmas {
  import opened Archive

  // ---------------------------------------------------------------------
  // Target URL
  // ---------------------------------------------------------------------

  /** Distinct domains, or a different scheme choice, give distinct target
      URLs. */
  lemma TargetUrlInjective(d1: string, h1: Option<string>, d2: string, h2: Option<string>)
    requires TargetUrl(d1, h1) == TargetUrl(d2, h2)
    ensures d1 == d2 && Truthy(h1) == Truthy(h2)
  {
    var s1 := if Truthy(h1) then HttpScheme else HttpsScheme;
    var s2 := if Truthy(h2) then HttpScheme else HttpsScheme;
    var u := TargetUrl(d1, h1);
    assert u == s1 + d1 && u == s2 + d2;
    // the two schemes already differ in their fifth character
    assert u[4] == s1[4] && u[4] == s2[4];
    assert s1 == s2;
    assert d1 == u[|s1|..] == d2;
  }

  // ---------------------------------------------------------------------
  // Zipping one row with the header row
  // ---------------------------------------------------------------------

  /** Every header names a field of the record, holding the value of the
      last column that carries that name. */
  lemma {:induction false} ZipRowAt(headers: Row, row: Row, key: string)
    requires |headers| <= |row| && key in headers
    ensures key in ZipRow(headers, row)
    ensures ZipRow(headers, row)[key] == row[Column(headers, key)]
  {
    var n := |headers| - 1;
    if headers[n] != key {
      assert key in headers[..n] by {
        var i :| 0 <= i < |headers| && headers[i] == key;
        assert i != n && headers[..n][i] == key;
      }
      ZipRowAt(headers[..n], row, key);
    }
  }

  /** With no repeated header, column i of the row is stored under
      headers[i]. */
  lemma ZipRowDistinct(headers: Row, row: Row, i: nat)
    requires |headers| <= |row|
    requires forall p, q :: 0 <= p < q < |headers| ==> headers[p] != headers[q]
    requires i < |headers|
    ensures ZipRow(headers, row)[headers[i]] == row[i]
  {
    ZipRowAt(headers, row, headers[i]);
  }

  /** Fields past the end of the header row do not affect the record. */
  lemma {:induction false} ZipRowIgnoresExtra(headers: Row, row1: Row, row2: Row)
    requires |headers| <= |row1| && |headers| <= |row2|
    requires row1[..|headers|] == row2[..|headers|]
    ensures ZipRow(headers, row1) == ZipRow(headers, row2)
  {
    if headers != [] {
      var n := |headers| - 1;
      assert row1[n] == row1[..|headers|][n] == row2[..|headers|][n] == row2[n];
      assert row1[..n] == row1[..|headers|][..n] == row2[..|headers|][..n] == row2[..n];
      ZipRowIgnoresExtra(headers[..n], row1, row2);
    }
  }

  /** Record k is the zip of data row k. */
  lemma {:induction false} ZipRowsAt(headers: Row, rows: seq<Row>, k: nat)
    requires Covers(headers, rows) && k < |rows|
    ensures ZipRows(headers, rows)[k] == ZipRow(headers, rows[k])
  {
    var n := |rows| - 1;
    if k < n {
      ZipRowsAt(headers, rows[..n], k);
    }
  }

  /** Either there are no records, or they all have exactly the header
      names as keys. */
  lemma ZipRowsHaveKey(headers: Row, rows: seq<Row>, key: string)
    requires Covers(headers, rows)
    ensures HasKey(ZipRows(headers, rows), key) <==> rows == [] || key in headers
  {
    var recs := ZipRows(headers, rows);
    forall k | 0 <= k < |rows| ensures recs[k] == ZipRow(headers, rows[k]) {
      ZipRowsAt(headers, rows, k);
    }
    if rows != [] {
      assert key in recs[0] <==> key in headers;
    }
  }

  // ---------------------------------------------------------------------
  // The MIME filter
  // ---------------------------------------------------------------------

  /** Filtering a concatenation filters each part: the relative order of
      the kept records is that of the input. */
  lemma {:induction false} FilterPdfAppend(a: seq<Record>, b: seq<Record>)
    requires HasKey(a, Mimetype) && HasKey(b, Mimetype)
    ensures HasKey(a + b, Mimetype)
    ensures FilterPdf(a + b) == FilterPdf(a) + FilterPdf(b)
  {
    assert HasKey(a + b, Mimetype) by {
      forall k | 0 <= k < |a + b| ensures Mimetype in (a + b)[k] {
        if k >= |a| { assert (a + b)[k] == b[k - |a|]; }
      }
    }
    if b != [] {
      var n := |b| - 1;
      assert (a + b)[..|a| + n] == a + b[..n];
      assert (a + b)[|a| + n] == b[n];
      FilterPdfAppend(a, b[..n]);
    } else {
      assert a + b == a;
    }
  }

  /** A record occurs in the output exactly as often as in the input when
      its MIME type is exactly "application/pdf", and never otherwise:
      the filter is an exact string match and keeps duplicates. */
  lemma {:induction false} FilterPdfCount(recs: seq<Record>, rec: Record)
    requires HasKey(recs, Mimetype)
    ensures multiset(FilterPdf(recs))[rec] ==
      if Mimetype in rec && rec[Mimetype] == PdfMime then multiset(recs)[rec] else 0
  {
    if recs != [] {
      var n := |recs| - 1;
      assert recs == recs[..n] + [recs[n]];
      FilterPdfCount(recs[..n], rec);
    }
  }

  /** The filter keeps nothing exactly when no record is a PDF. */
  lemma FilterPdfEmpty(recs: seq<Record>)
    requires HasKey(recs, Mimetype)
    ensures FilterPdf(recs) == [] <==> forall k :: 0 <= k < |recs| ==> recs[k][Mimetype] != PdfMime
  {
    if FilterPdf(recs) == [] {
      forall k | 0 <= k < |recs| ensures recs[k][Mimetype] != PdfMime {
        FilterPdfCount(recs, recs[k]);
        assert recs[k] in multiset(recs);
      }
    } else {
      var p := FilterPdf(recs)[0];
      FilterPdfCount(recs, p);
      assert p in multiset(FilterPdf(recs));
      var k :| 0 <= k < |recs| && recs[k] == p;
    }
  }

  // ---------------------------------------------------------------------
  // The links
  // ---------------------------------------------------------------------

  /** Entry k is the single-key dictionary {"pdffile": link of record k}. */
  lemma {:induction false} DeriveAt(pdfs: seq<Record>, k: nat)
    requires HasKey(pdfs, Timestamp) && HasKey(pdfs, Original) && k < |pdfs|
    ensures Derive(pdfs)[k].Keys == {PdfFileKey}
    ensures Derive(pdfs)[k][PdfFileKey] == ArchiveWeb + pdfs[k][Timestamp] + RawInfix + pdfs[k][Original]
  {
    var n := |pdfs| - 1;
    if k < n {
      DeriveAt(pdfs[..n], k);
    }
  }

  /** Deriving a concatenation derives each part. */
  lemma {:induction false} DeriveAppend(a: seq<Record>, b: seq<Record>)
    requires HasKey(a, Timestamp) && HasKey(a, Original)
    requires HasKey(b, Timestamp) && HasKey(b, Original)
    ensures HasKey(a + b, Timestamp) && HasKey(a + b, Original)
    ensures Derive(a + b) == Derive(a) + Derive(b)
  {
    forall k | |a| <= k < |a + b| ensures (a + b)[k] == b[k - |a|] { }
    if b != [] {
      var n := |b| - 1;
      assert (a + b)[..|a| + n] == a + b[..n];
      DeriveAppend(a, b[..n]);
    } else {
      assert a + b == a;
    }
  }

  /** DigitRun stops at the first non-digit after a run of digits. */
  lemma {:induction false} DigitRunAppend(digits: string, s: string)
    requires IsDigits(digits)
    requires s == [] || !IsDigit(s[0])
    ensures DigitRun(digits + s) == |digits|
  {
    if digits != [] {
      assert (digits + s)[1..] == digits[1..] + s;
      DigitRunAppend(digits[1..], s);
    }
  }

  /** A link built from an all-digit timestamp reads back as that
      timestamp and original URL. */
  lemma PdfUrlRoundTrip(timestamp: string, original: string)
    requires IsDigits(timestamp)
    ensures ParsePdfUrl(PdfUrl(timestamp, original)) == Some((timestamp, original))
  {
    var url := PdfUrl(timestamp, original);
    var rest := timestamp + RawInfix + original;
    assert url == ArchiveWeb + rest;
    assert url[..|ArchiveWeb|] == ArchiveWeb && url[|ArchiveWeb|..] == rest;
    DigitRunAppend(timestamp, RawInfix + original);
    assert timestamp + RawInfix + original == timestamp + (RawInfix + original);
  }

  /** For all-digit timestamps, such as the archive's fourteen-digit
      capture times, distinct (timestamp, original) pairs give distinct
      links. */
  lemma PdfUrlInjective(t1: string, o1: string, t2: string, o2: string)
    requires IsDigits(t1) && IsDigits(t2)
    requires PdfUrl(t1, o1) == PdfUrl(t2, o2)
    ensures t1 == t2 && o1 == o2
  {
    PdfUrlRoundTrip(t1, o1);
    PdfUrlRoundTrip(t2, o2);
  }

  /** Without a restriction on the timestamp, two different pairs can give
      the same link: the formula puts no separator of its own between the
      two fields. */
  lemma PdfUrlCollision()
    ensures PdfUrl("1", "if_/x") == PdfUrl("1if_/", "x")
  {
  }

  // ---------------------------------------------------------------------
  // The pipeline, stated on the rows
  // ---------------------------------------------------------------------

  /** Filtering the records is zipping the PDF rows. */
  lemma {:induction false} FilterZip(headers: Row, rows: seq<Row>)
    requires Covers(headers, rows) && Mimetype in headers
    ensures HasKey(ZipRows(headers, rows), Mimetype)
    ensures FilterPdf(ZipRows(headers, rows)) == ZipRows(headers, PdfRows(headers, rows))
  {
    ZipRowsHaveKey(headers, rows, Mimetype);
    if rows != [] {
      var n := |rows| - 1;
      var recs := ZipRows(headers, rows);
      var last := ZipRow(headers, rows[n]);
      assert recs[..n] == ZipRows(headers, rows[..n]);
      assert recs[n] == last;
      ZipRowAt(headers, rows[n], Mimetype);
      FilterZip(headers, rows[..n]);
      var keep := rows[n][Column(headers, Mimetype)] == PdfMime;
      var front := PdfRows(headers, rows[..n]);
      if keep {
        assert PdfRows(headers, rows) == front + [rows[n]];
        assert (front + [rows[n]])[..|front|] == front;
      } else {
        assert PdfRows(headers, rows) == front;
      }
    }
  }

  /** Deriving links from the zipped records reads them from the rows'
      columns. */
  lemma {:induction false} DeriveZip(headers: Row, rows: seq<Row>)
    requires Covers(headers, rows) && Timestamp in headers && Original in headers
    ensures HasKey(ZipRows(headers, rows), Timestamp) && HasKey(ZipRows(headers, rows), Original)
    ensures Derive(ZipRows(headers, rows)) == RowUrls(headers, rows)
  {
    ZipRowsHaveKey(headers, rows, Timestamp);
    ZipRowsHaveKey(headers, rows, Original);
    if rows != [] {
      var n := |rows| - 1;
      var recs := ZipRows(headers, rows);
      assert recs[..n] == ZipRows(headers, rows[..n]);
      ZipRowAt(headers, rows[n], Timestamp);
      ZipRowAt(headers, rows[n], Original);
      DeriveZip(headers, rows[..n]);
    }
  }

  /** On records zipped from at least one row, the link loop fails on the
      first record exactly when the header lacks timestamp, or else
      original. */
  lemma MissingUrlFieldZip(headers: Row, rows: seq<Row>)
    requires Covers(headers, rows)
    ensures MissingUrlField(ZipRows(headers, rows)) ==
      if rows == [] then None
      else if Timestamp !in headers then Some(Timestamp)
      else if Original !in headers then Some(Original)
      else None
  {
    var recs := ZipRows(headers, rows);
    if rows != [] {
      ZipRowsAt(headers, rows, 0);
      assert Timestamp in recs[0] <==> Timestamp in headers;
      assert Original in recs[0] <==> Original in headers;
      ZipRowsHaveKey(headers, rows, Timestamp);
      ZipRowsHaveKey(headers, rows, Original);
    }
  }

  /** The result of a well-formed table (a header row naming "mimetype"
      and data rows as long as it): the empty list when no row is a PDF;
      otherwise a KeyError when the header lacks "timestamp" or then
      "original"; otherwise one link per PDF row, in row order, built from
      that row's own timestamp and original fields. */
  lemma PdfListOfTable(headers: Row, rows: seq<Row>)
    requires Covers(headers, rows) && Mimetype in headers
    ensures var r := PdfList(Decoded([headers] + rows));
      if PdfRows(headers, rows) == [] then r == Ok([])
      else if Timestamp !in headers then r == Err(MissingKey(Timestamp))
      else if Original !in headers then r == Err(MissingKey(Original))
      else r == Ok(RowUrls(headers, PdfRows(headers, rows)))
  {
    var raw := [headers] + rows;
    assert raw[0] == headers && raw[1..] == rows;
    FilterZip(headers, rows);
    var pdfRows := PdfRows(headers, rows);
    var pdfs := ZipRows(headers, pdfRows);
    assert Selected(ZipRows(headers, rows)) == Ok(pdfs);
    MissingUrlFieldZip(headers, pdfRows);
    if pdfRows != [] && Timestamp in headers && Original in headers {
      DeriveZip(headers, pdfRows);
    }
  }

  /** The remaining outcomes on a decoded table: no header row, a short
      data row, data rows without a "mimetype" column; a table holding the
      header row alone gives the empty list whatever the header names. */
  lemma PdfListMalformed(raw: Table)
    ensures |raw| == 0 ==> PdfList(Decoded(raw)) == Err(EmptyTable)
    ensures |raw| > 0 && !Covers(raw[0], raw[1..]) ==> PdfList(Decoded(raw)) == Err(ShortRow)
    ensures |raw| > 1 && Covers(raw[0], raw[1..]) && Mimetype !in raw[0] ==>
      PdfList(Decoded(raw)) == Err(MissingKey(Mimetype))
    ensures |raw| == 1 ==> PdfList(Decoded(raw)) == Ok([])
  {
    if |raw| > 1 && Covers(raw[0], raw[1..]) {
      ZipRowsHaveKey(raw[0], raw[1..], Mimetype);
    }
  }

  /** The number of links is the number of PDF rows; a table with no PDF
      row gives the empty list. */
  lemma PdfListCount(headers: Row, rows: seq<Row>)
    requires Covers(headers, rows) && Mimetype in headers
    requires PdfList(Decoded([headers] + rows)).Ok?
    ensures |PdfList(Decoded([headers] + rows)).value| == |PdfRows(headers, rows)|
  {
    PdfListOfTable(headers, rows);
  }
}
