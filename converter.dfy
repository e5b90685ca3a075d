/**
 * `convert_jpg_to_docx` (app.py, lines 31-77): open the uploaded image, work out the
 * display width, embed the whole upload in a fresh Word document and serialise it.
 * Image decoding (PIL) and document building (python-docx) are foreign code; they
 * are given as oracles that either answer or fail. Every failure, whichever step
 * raises it, is caught by the one `except Exception` and turned into "no buffer".
 */
module Converter {
  import opened Wrappers

  /** An uploaded file: its original file name and its raw content. */
  datatype Upload = Upload(name: string, content: Bytes)

  /** Pixel dimensions of a decoded image. */
  datatype Size = Size(width: nat, height: nat)

  /**
   * The foreign calls the converter makes, as oracles:
   * `openImage` is `Image.open(f).size` (None when decoding raises);
   * `render` is `Document()`, `add_picture(content, width=Inches(w))` and `save`
   * together (None when any of them raises).
   */
  datatype Libraries = Libraries(
    openImage: Bytes -> Option<Size>,
    render: (Bytes, nat) -> Option<Bytes>)

  /** What the converter hands back: a serialised document, or nothing (`None`). */
  datatype Conversion = Converted(docx: Bytes) | Failed

  /** `max_width`: the width, in inches, at which every picture is placed. */
  const MaxWidthInches: nat := 6

  /**
   * The width chosen for the picture (lines 53-58). Landscape and portrait take
   * different branches, and both give `max_width`.
   */
  function DisplayWidth(size: Size): (w: nat)
    ensures w == MaxWidthInches
  {
    if size.width > size.height then
      MaxWidthInches  // landscape
    else
      MaxWidthInches  // portrait
  }

  /**
   * One conversion. The aspect ratio `height / width` (line 51) is never used,
   * but computing it raises ZeroDivisionError for a zero-width image, which the
   * handler turns into a failure like any other.
   */
  function ConvertJpgToDocx(libs: Libraries, file: Upload): (r: Conversion)
    ensures r.Converted? <==>
      && libs.openImage(file.content).Some?
      && libs.openImage(file.content).value.width != 0
      && libs.render(file.content, MaxWidthInches).Some?
    ensures r.Converted? ==> r.docx == libs.render(file.content, MaxWidthInches).value
  {
    match libs.openImage(file.content)
    case None => Failed
    case Some(size) =>
      if size.width == 0 then Failed
      else
        match libs.render(file.content, DisplayWidth(size))
        case None => Failed
        case Some(doc) => Converted(doc)
  }

  /**
   * The decoded dimensions matter only through whether the image opens with a
   * non-zero width: two decoders that both succeed that way, whatever sizes they
   * report, lead to the same document.
   */
  lemma ConversionIgnoresOrientation(libs1: Libraries, libs2: Libraries, file: Upload)
    requires libs1.render == libs2.render
    requires libs1.openImage(file.content).Some? && libs1.openImage(file.content).value.width != 0
    requires libs2.openImage(file.content).Some? && libs2.openImage(file.content).value.width != 0
    ensures ConvertJpgToDocx(libs1, file) == ConvertJpgToDocx(libs2, file)
  {
  }

  /** The file name plays no part in the conversion: only the content is read. */
  lemma ConversionIgnoresName(libs: Libraries, file1: Upload, file2: Upload)
    requires file1.content == file2.content
    ensures ConvertJpgToDocx(libs, file1) == ConvertJpgToDocx(libs, file2)
  {
  }
}
