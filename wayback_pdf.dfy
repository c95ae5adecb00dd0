/** `getPDFlist` of waybackPDF.py as the loops it is written with: the
    target URL, the request (a parameter standing for the archive server),
    then the loop that zips rows into records, the loop that keeps the PDF
    records and the loop that builds their links.  Each method is proved
    against its reference definition in module Archive. */
module WaybackPdf {
  import opened Archive
  import ArchiveLemmas

  /** Lines 74-81: the header row, then for each data row a record filled
      column by column.  Reading a field past the end of a row raises. */
  method NormalizeTable(raw: Table) returns (r: Result<seq<Record>>)
    ensures r == Normalized(raw)
    ensures r.Ok? ==> |r.value| == |raw| - 1
    ensures r.Ok? ==> forall k :: 0 <= k < |r.value| ==> r.value[k] == ZipRow(raw[0], raw[k + 1])
  {
    if |raw| == 0 {
      return Err(EmptyTable);
    }
    var headers := raw[0];
    var files: seq<Record> := [];
    var n := 1;
    while n < |raw|
      invariant 1 <= n <= |raw|
      invariant Covers(headers, raw[1..n])
      invariant files == ZipRows(headers, raw[1..n])
    {
      var item := raw[n];
      var file: Record := map[];
      var i := 0;
      while i < |headers|
        invariant i <= |headers| && i <= |item|
        invariant file == ZipRow(headers[..i], item)
      {
        if i >= |item| {
          assert raw[1..][n - 1] == item;
          return Err(ShortRow);
        }
        assert headers[..i + 1][..i] == headers[..i];
        file := file[headers[i] := item[i]];
        i := i + 1;
      }
      assert headers[..i] == headers;
      assert raw[1..n + 1][..n - 1] == raw[1..n];
      files := files + [file];
      n := n + 1;
    }
    assert raw[1..n] == raw[1..];
    r := Ok(files);
    forall k | 0 <= k < |files| ensures files[k] == ZipRow(headers, raw[k + 1]) {
      ArchiveLemmas.ZipRowsAt(headers, raw[1..], k);
    }
  }

  /** Lines 83-87: keep, in order, the records whose MIME type is exactly
      "application/pdf".  A record without one raises. */
  method SelectPdfs(files: seq<Record>) returns (r: Result<seq<Record>>)
    ensures r == Selected(files)
    ensures r.Ok? ==> forall k :: 0 <= k < |r.value| ==> r.value[k][Mimetype] == PdfMime
    ensures r.Ok? ==> forall rec :: multiset(r.value)[rec] ==
                                    if Mimetype in rec && rec[Mimetype] == PdfMime then multiset(files)[rec] else 0
  {
    var pdfs: seq<Record> := [];
    for k := 0 to |files|
      invariant HasKey(files[..k], Mimetype)
      invariant pdfs == FilterPdf(files[..k])
    {
      var file := files[k];
      if Mimetype !in file {
        return Err(MissingKey(Mimetype));
      }
      assert files[..k + 1][..k] == files[..k];
      if file[Mimetype] == PdfMime {
        pdfs := pdfs + [file];
      }
    }
    assert files[..|files|] == files;
    r := Ok(pdfs);
    forall rec {
      ArchiveLemmas.FilterPdfCount(files, rec);
    }
  }

  /** Lines 89-100: one {"pdffile": link} entry per PDF record, in order;
      no PDF record gives the empty list.  A record without a timestamp, or
      then without an original URL, raises. */
  method DeriveUrls(pdfs: seq<Record>) returns (r: Result<seq<Entry>>)
    ensures r == Derived(pdfs)
    ensures r.Ok? ==> |r.value| == |pdfs|
    ensures r.Ok? ==> forall k :: 0 <= k < |pdfs| ==>
      r.value[k].Keys == {PdfFileKey} &&
      r.value[k][PdfFileKey] == ArchiveWeb + pdfs[k][Timestamp] + RawInfix + pdfs[k][Original]
  {
    if pdfs == [] {
      return Ok([]);
    }
    var resultFinal: seq<Entry> := [];
    for k := 0 to |pdfs|
      invariant MissingUrlField(pdfs) == MissingUrlField(pdfs[k..])
      invariant HasKey(pdfs[..k], Timestamp) && HasKey(pdfs[..k], Original)
      invariant resultFinal == Derive(pdfs[..k])
    {
      var pdf := pdfs[k];
      assert pdfs[k..][1..] == pdfs[k + 1..];
      if Timestamp !in pdf {
        return Err(MissingKey(Timestamp));
      }
      if Original !in pdf {
        return Err(MissingKey(Original));
      }
      var pdfPath := ArchiveWeb + pdf[Timestamp] + RawInfix + pdf[Original];
      assert pdfs[..k + 1][..k] == pdfs[..k];
      resultFinal := resultFinal + [map[PdfFileKey := pdfPath]];
    }
    assert pdfs[..|pdfs|] == pdfs;
    r := Ok(resultFinal);
    forall k | 0 <= k < |pdfs|
      ensures resultFinal[k].Keys == {PdfFileKey}
      ensures resultFinal[k][PdfFileKey] == ArchiveWeb + pdfs[k][Timestamp] + RawInfix + pdfs[k][Original]
    {
      ArchiveLemmas.DeriveAt(pdfs, k);
    }
  }

  /** Lines 45-100: build the target URL, ask the archive for its timemap
      (a transport failure gives the empty list), then normalise, filter
      and derive the links; the first exception ends the run. */
  method GetPdfList(domain: string, http: Option<string>, archive: string -> Response)
    returns (r: Result<seq<Entry>>)
    ensures r == PdfList(archive(TargetUrl(domain, http)))
    ensures archive(TargetUrl(domain, http)) == TransportError ==> r == Ok([])
  {
    var targetDomain := TargetUrl(domain, http);
    var resp := archive(targetDomain);
    if resp.TransportError? {
      return Ok([]);
    }
    var files := NormalizeTable(resp.table);
    if files.Err? {
      return Err(files.fault);
    }
    var pdfs := SelectPdfs(files.value);
    if pdfs.Err? {
      return Err(pdfs.fault);
    }
    r := DeriveUrls(pdfs.value);
  }
}
