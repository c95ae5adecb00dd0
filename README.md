# WaybackPDF: the PDF listing of `getPDFlist`, in Dafny

WaybackPDF asks the Wayback Machine's timemap API for every archived capture
under a domain. It keeps the captures whose MIME type is `application/pdf` and
writes one direct archive link per PDF to a JSON file. This project models
`getPDFlist` in `waybackPDF.py`:

- the choice of target URL: `https://<domain>`, or `http://<domain>` when the
  `--http` option is truthy;
- the treatment of a transport failure of the request, which gives the empty
  list;
- the three loops over the decoded response table:
  - each data row is zipped with the header row into a file record;
  - the records whose `mimetype` is exactly `application/pdf` are kept;
  - each kept record becomes `{"pdffile": "https://web.archive.org/web/" + timestamp + "if_/" + original}`.

The model has three modules.

- `Archive` (archive.dfy) holds the data model and the reference functions:
  - the data model is `Row`, `Table`, `Record`, `Entry` and `Response`;
  - `Fault` stands for the exceptions the function raises;
  - `Result` is either a value or a fault;
  - the reference functions are the header zip, the filter, the link formula
    and the whole pipeline (`PdfList`);
  - two definitions work on the rows directly, `PdfRows` and `RowUrls`;
  - `ParsePdfUrl` reads a link back.
- `ArchiveLemmas` (archive_lemmas.dfy) proves what those functions mean. Its
  main result is `PdfListOfTable`: for a well-formed table, the pipeline's
  output equals the links read straight from the PDF rows' own columns.
- `WaybackPdf` (wayback_pdf.dfy) holds the loops as they are written, as
  methods that build sequences step by step. Each method is proved equal to
  its reference function. `GetPdfList` composes them.

How the model handles the parts it cannot execute:

- The HTTP request is a parameter, `archive: string -> Response`. It is
  applied to the target URL and returns either `TransportError` or the decoded
  table (`seq<seq<string>>`).
- The Python exceptions become `Fault` values:
  - `EmptyTable` is the `IndexError` of `raw[0]`;
  - `ShortRow` is the `IndexError` of `item[i]`;
  - `MissingKey(k)` is the `KeyError` of a record lookup.
- Faults come in the order the code meets them:
  - the `mimetype` lookup happens only when there is a data row;
  - the `timestamp` and `original` lookups happen only when there is a PDF
    record;
  - `timestamp` is read before `original`.

  So a table with only a header row gives the empty list, whatever the header
  names.

The link formula is not injective on arbitrary strings. The pair
(`"1"`, `"if_/x"`) and the pair (`"1if_/"`, `"x"`) give the same link
(`PdfUrlCollision`). It is injective when timestamps are all digits, as the
archive's are (`PdfUrlInjective`, from the round trip `PdfUrlRoundTrip`). The
model states the narrower claim.

## Model

| member | source | states |
|---|---|---|
| `Archive.TargetUrl` | waybackPDF.py:49-53 | The URL ends with the unchanged domain. What precedes it is `http://` exactly when `--http` is truthy (present and non-empty), and `https://` otherwise. |
| `Archive.ZipRow` | waybackPDF.py:78-80 | A record's keys are exactly the header names. |
| `Archive.ZipRows` | waybackPDF.py:77-81 | Normalisation gives as many records as there are data rows. |
| `Archive.FilterPdf` | waybackPDF.py:85-87 | The kept records are no more than the input. Every one of them has MIME type `application/pdf`. |
| `Archive.Derive` | waybackPDF.py:90-93 | There is one entry per PDF record. |
| `Archive.MissingUrlField` | waybackPDF.py:92 | The link loop fails exactly when some PDF record lacks `timestamp` or `original`. The key it fails on is one of those two. |
| `Archive.PdfRows` | waybackPDF.py:77-87 | Row-level reference for the filter. The selected rows are complete. Each has `application/pdf` in the last `mimetype` column. |
| `Archive.RowUrls` | waybackPDF.py:90-93 | Row-level reference for the links. There is one link per row. |
| `ArchiveLemmas.TargetUrlInjective` | waybackPDF.py:49-53 | Equal target URLs mean equal domains and the same scheme choice. Nothing about the domain is lost. |
| `ArchiveLemmas.ZipRowAt` | waybackPDF.py:78-80 | Each header name maps to the row's value in the last column with that name. With duplicate names, the later column wins. |
| `ArchiveLemmas.ZipRowDistinct` | waybackPDF.py:78-80 | With distinct header names, `record[headers[i]] == row[i]` for every header index `i`. |
| `ArchiveLemmas.ZipRowIgnoresExtra` | waybackPDF.py:79-80 | Fields past the length of the header row do not change the record. |
| `ArchiveLemmas.ZipRowsAt` | waybackPDF.py:77-81 | Record `k` is the zip of data row `k`, so the row order is kept. |
| `ArchiveLemmas.ZipRowsHaveKey` | waybackPDF.py:77-86 | Every record has a key exactly when there are no data rows or the header names that key. |
| `ArchiveLemmas.FilterPdfAppend` | waybackPDF.py:85-87 | Filtering a concatenation is the concatenation of the filtered parts, so the relative order is kept. |
| `ArchiveLemmas.FilterPdfCount` | waybackPDF.py:85-87 | A record appears in the output as often as in the input when its MIME type is exactly `application/pdf`, and never otherwise. This is an exact match with no deduplication. |
| `ArchiveLemmas.FilterPdfEmpty` | waybackPDF.py:85-87 | Nothing is kept exactly when no record's MIME type is `application/pdf`. |
| `ArchiveLemmas.DeriveAt` | waybackPDF.py:92-93 | Entry `k` is a single-key map. Its `pdffile` value is `https://web.archive.org/web/` + timestamp + `if_/` + original of PDF record `k`. |
| `ArchiveLemmas.DeriveAppend` | waybackPDF.py:90-93 | Deriving a concatenation derives each part in order. |
| `ArchiveLemmas.PdfUrlRoundTrip` | waybackPDF.py:92 | A link built from an all-digit timestamp parses back to that timestamp and original URL. |
| `ArchiveLemmas.PdfUrlInjective` | waybackPDF.py:92 | For all-digit timestamps, distinct (timestamp, original) pairs give distinct links. |
| `ArchiveLemmas.PdfUrlCollision` | waybackPDF.py:92 | For unrestricted timestamps, two different pairs can give the same link. |
| `ArchiveLemmas.FilterZip` | waybackPDF.py:77-87 | Filtering the zipped records equals zipping the PDF rows. |
| `ArchiveLemmas.DeriveZip` | waybackPDF.py:77-93 | Deriving links from zipped records equals reading them from the rows' timestamp and original columns. |
| `ArchiveLemmas.MissingUrlFieldZip` | waybackPDF.py:86-92 | On zipped records, the link loop fails only if there is a record and the header lacks `timestamp`, or else `original`. |
| `ArchiveLemmas.PdfListOfTable` | waybackPDF.py:74-100 | Assume a header naming `mimetype` and complete data rows. No PDF row gives `[]`. Otherwise a missing `timestamp`, then a missing `original`, raises `KeyError`. Otherwise there is one link per PDF row, in row order, built from that row's fields. |
| `ArchiveLemmas.PdfListMalformed` | waybackPDF.py:74-86 | An empty table raises `IndexError`. A short data row raises `IndexError`. Data rows without a `mimetype` column raise `KeyError`. A table with only a header row gives `[]`. |
| `ArchiveLemmas.PdfListCount` | waybackPDF.py:89-100 | On success, the number of links equals the number of PDF rows. |
| `WaybackPdf.NormalizeTable` | waybackPDF.py:74-81 | The nested loop gives `Normalized`. On success that is `\|raw\| - 1` records, record `k` being the zip of row `k + 1`. It fails on an empty table or a short row. |
| `WaybackPdf.SelectPdfs` | waybackPDF.py:83-87 | The filter loop gives `Selected`. Every kept record is a PDF, and multiplicities match the input for PDF records. It fails when a record lacks `mimetype`. |
| `WaybackPdf.DeriveUrls` | waybackPDF.py:89-100 | The link loop gives `Derived`. There is one single-key `pdffile` entry per PDF record, with the exact link formula. `[]` when there is no PDF. |
| `WaybackPdf.GetPdfList` | waybackPDF.py:45-100 | The function's result is `PdfList` of the archive's response to `TargetUrl(domain, http)`. A transport failure gives `[]`. |

## Left out

- The HTTP request and JSON decoding (`requests.get(...).json()`, line 68) are network I/O and a foreign library. The response is a parameter: either a transport failure or the decoded table.
- A decoding failure of the body is not modelled separately. The response is either a transport failure or a table of strings.
- JSON values in the table that are not strings (numbers, `null`, nested arrays) and a top-level value that is not an array are not modelled. The table is `seq<seq<string>>`.
- The constant query `payload` (lines 55-63) is data sent to the server with no behaviour of its own. Only its `url` entry, the target URL, reaches the model, as the argument of `archive`.
- `parse_arguments` (lines 22-42) is command-line plumbing. The `--http` value enters as `Option<string>` and `--resume` is unused by the pipeline.
- The `PC` colour constants and every `print` (lines 9-19, 46, 70, 95, 99) are console output only.
- `write_data_to_file` (lines 103-108) is file I/O through `json.dump`.
- `main` (lines 111-126) only calls the other functions in sequence.
- Exception messages and tracebacks are not modelled. A raised exception is a `Fault` value returned as `Err`.
