/**
 * The batch run behind the "Convert All to DOCX" button (app.py, lines 88-110):
 * two counters start at zero, every upload is converted in order, a success is
 * written into the ZIP archive under its derived entry name and counted as
 * successful, a failure is only counted as failed.
 */
module Packager {
  import opened Wrappers
  import opened Naming
  import opened Converter

  /** One named entry of the archive. */
  datatype Entry = Entry(name: string, data: Bytes)

  /** The three figures shown after a run (lines 122-127). */
  datatype Summary = Summary(successful: nat, failed: nat, total: nat)

  /**
   * The archive being written (`zipfile.ZipFile(zip_buffer, 'w')`), seen as the
   * list of entries written so far. `writestr` appends even when the name is
   * already present: `zipfile` only warns about the duplicate, keeps both
   * entries, and a later read by that name finds the second.
   */
  class ZipWriter {
    var entries: seq<Entry>

    constructor ()
      ensures entries == []
    {
      entries := [];
    }

    /** `writestr(name, data)`: append one entry. */
    method WriteStr(name: string, data: Bytes)
      modifies this
      ensures entries == old(entries) + [Entry(name, data)]
    {
      entries := entries + [Entry(name, data)];
    }
  }

  /** The entries one upload contributes: one when it converts, none when it fails. */
  function EntriesFor(libs: Libraries, file: Upload): (r: seq<Entry>)
    ensures |r| <= 1
    ensures |r| == 1 <==> ConvertJpgToDocx(libs, file).Converted?
    ensures forall e :: e in r ==>
      e.name == EntryName(file.name) && ConvertJpgToDocx(libs, file) == Converted(e.data)
  {
    match ConvertJpgToDocx(libs, file)
    case Converted(doc) => [Entry(EntryName(file.name), doc)]
    case Failed => []
  }

  /** The archive contents after a run over `files`, one upload after the other. */
  function Archive(libs: Libraries, files: seq<Upload>): seq<Entry>
    decreases |files|
  {
    if files == [] then []
    else Archive(libs, files[..|files| - 1]) + EntriesFor(libs, files[|files| - 1])
  }

  /** True when the upload converts. */
  predicate Succeeds(libs: Libraries, file: Upload)
  {
    ConvertJpgToDocx(libs, file).Converted?
  }

  /** The number of uploads in `files` that convert. */
  function SuccessCount(libs: Libraries, files: seq<Upload>): nat
    decreases |files|
  {
    if files == [] then 0
    else SuccessCount(libs, files[..|files| - 1]) + (if Succeeds(libs, files[|files| - 1]) then 1 else 0)
  }

  /** The number of uploads in `files` that fail. */
  function FailureCount(libs: Libraries, files: seq<Upload>): nat
    decreases |files|
  {
    if files == [] then 0
    else FailureCount(libs, files[..|files| - 1]) + (if Succeeds(libs, files[|files| - 1]) then 0 else 1)
  }

  /**
   * The positions of the uploads that convert, in increasing order: exactly the
   * indices of successful uploads, each once.
   */
  function SuccessIndices(libs: Libraries, files: seq<Upload>): (r: seq<nat>)
    ensures forall k :: 0 <= k < |r| ==> r[k] < |files|
    ensures forall k, l :: 0 <= k < l < |r| ==> r[k] < r[l]
    ensures forall i :: i in r <==> 0 <= i < |files| && Succeeds(libs, files[i])
    decreases |files|
  {
    if files == [] then []
    else
      var prefix := files[..|files| - 1];
      var r := SuccessIndices(libs, prefix);
      assert forall i :: 0 <= i < |prefix| ==> prefix[i] == files[i];
      if Succeeds(libs, files[|files| - 1]) then r + [|files| - 1] else r
  }

  /**
   * The batch loop (lines 91-110). Each upload is converted once, in order; a
   * success appends its entry and counts as successful, a failure counts as
   * failed and the loop goes on with the next upload.
   */
  method ConvertAll(libs: Libraries, files: seq<Upload>) returns (archive: seq<Entry>, summary: Summary)
    ensures archive == Archive(libs, files)
    ensures summary.successful == SuccessCount(libs, files)
    ensures summary.failed == FailureCount(libs, files)
    ensures summary.total == |files|
    ensures summary.successful + summary.failed == summary.total
    ensures |archive| == summary.successful
  {
    var zip := new ZipWriter();
    var successful, failed := 0, 0;
    var i := 0;
    while i < |files|
      invariant 0 <= i <= |files|
      invariant zip.entries == Archive(libs, files[..i])
      invariant successful == SuccessCount(libs, files[..i])
      invariant failed == FailureCount(libs, files[..i])
      invariant successful + failed == i
      invariant |zip.entries| == successful
    {
      var file := files[i];
      var docx := ConvertJpgToDocx(libs, file);
      assert files[..i + 1][..i] == files[..i];
      if docx.Converted? {
        zip.WriteStr(EntryName(file.name), docx.docx);
        successful := successful + 1;
      } else {
        failed := failed + 1;
      }
      i := i + 1;
    }
    assert files[..i] == files;
    archive := zip.entries;
    summary := Summary(successful, failed, |files|);
  }

  /** Every upload is counted exactly once, as a success or as a failure. */
  lemma {:induction false} TallyCoversEveryFile(libs: Libraries, files: seq<Upload>)
    ensures SuccessCount(libs, files) + FailureCount(libs, files) == |files|
    decreases |files|
  {
    if files != [] {
      TallyCoversEveryFile(libs, files[..|files| - 1]);
    }
  }

  /** The archive holds one entry per successful conversion and none for a failure. */
  lemma {:induction false} ArchiveSizeIsSuccessCount(libs: Libraries, files: seq<Upload>)
    ensures |Archive(libs, files)| == SuccessCount(libs, files) == |SuccessIndices(libs, files)|
    decreases |files|
  {
    if files != [] {
      ArchiveSizeIsSuccessCount(libs, files[..|files| - 1]);
    }
  }

  /**
   * Entry k of the archive comes from the k-th upload that converted: it is named
   * after that upload and its bytes are that upload's document. Together with
   * SuccessIndices this says the entries follow the uploads' order, that a
   * successful upload always has its entry and a failed one never does.
   */
  lemma {:induction false} ArchiveEntries(libs: Libraries, files: seq<Upload>)
    ensures |Archive(libs, files)| == |SuccessIndices(libs, files)|
    ensures forall k :: 0 <= k < |Archive(libs, files)| ==>
      var i := SuccessIndices(libs, files)[k];
      ConvertJpgToDocx(libs, files[i]).Converted? &&
      Archive(libs, files)[k] == Entry(EntryName(files[i].name), ConvertJpgToDocx(libs, files[i]).docx)
    decreases |files|
  {
    if files != [] {
      var prefix := files[..|files| - 1];
      ArchiveEntries(libs, prefix);
      assert forall i :: 0 <= i < |prefix| ==> prefix[i] == files[i];
    }
  }

  /** Running over two batches one after the other writes what each writes, in order. */
  lemma {:induction false} ArchiveAppend(libs: Libraries, a: seq<Upload>, b: seq<Upload>)
    ensures Archive(libs, a + b) == Archive(libs, a) + Archive(libs, b)
    decreases |b|
  {
    if b == [] {
      assert a + b == a;
    } else {
      var b' := b[..|b| - 1];
      ArchiveAppend(libs, a, b');
      assert (a + b)[..|a + b| - 1] == a + b';
    }
  }

  /**
   * A failed upload does not abort the batch: the archive is the one the batch
   * would produce without that upload.
   */
  lemma FailureAddsNothing(libs: Libraries, before: seq<Upload>, file: Upload, after: seq<Upload>)
    requires !Succeeds(libs, file)
    ensures Archive(libs, before + [file] + after) == Archive(libs, before + after)
  {
    ArchiveAppend(libs, before + [file], after);
    ArchiveAppend(libs, before, [file]);
    ArchiveAppend(libs, before, after);
    assert Archive(libs, [file]) == Archive(libs, []) + EntriesFor(libs, file);
  }

  /**
   * Names are not checked for collisions: two uploads with the same stem that both
   * convert give two entries under the same name, and both count as successful.
   */
  lemma DuplicateStemsBothWritten(libs: Libraries, f1: Upload, f2: Upload)
    requires Stem(f1.name) == Stem(f2.name)
    requires Succeeds(libs, f1) && Succeeds(libs, f2)
    ensures Archive(libs, [f1, f2]) == [
      Entry(EntryName(f1.name), ConvertJpgToDocx(libs, f1).docx),
      Entry(EntryName(f1.name), ConvertJpgToDocx(libs, f2).docx)]
    ensures SuccessCount(libs, [f1, f2]) == 2
  {
    var files := [f1, f2];
    assert files[..1] == [f1] && [f1][..0] == [];
    assert Archive(libs, [f1]) == EntriesFor(libs, f1);
    assert SuccessCount(libs, [f1]) == 1;
  }
}
