/**
 * How an archive entry is named after its upload (app.py, lines 105-107):
 * `file.name.rsplit('.', 1)[0] + ".docx"`. Splitting once from the right on
 * '.' and keeping the first part removes everything from the LAST dot on;
 * a name without a dot is kept whole.
 */
module Naming {
  import opened Wrappers

  /** The extension every entry of the archive is given. */
  const DocxSuffix: string := ".docx"

  /** The index of the last occurrence of `c` in `s`, or None when `c` does not occur. */
  function LastIndexOf(s: string, c: char): (r: Option<nat>)
    ensures r.Some? ==> r.value < |s| && s[r.value] == c
    ensures r.Some? ==> forall j :: r.value < j < |s| ==> s[j] != c
    ensures r.None? <==> c !in s
    decreases |s|
  {
    if |s| == 0 then None
    else if s[|s| - 1] == c then Some(|s| - 1)
    else
      var r := LastIndexOf(s[..|s| - 1], c);
      assert forall j :: 0 <= j < |s| - 1 ==> s[..|s| - 1][j] == s[j];
      r
  }

  /**
   * `name.rsplit('.', 1)[0]`: the name up to, and not including, its last dot,
   * or the whole name when it has no dot.
   */
  function Stem(name: string): (r: string)
    ensures r <= name
    ensures '.' !in name ==> r == name
    ensures '.' in name ==> |r| < |name| && name[|r|] == '.' && '.' !in name[|r| + 1..]
  {
    match LastIndexOf(name, '.')
    case None => name
    case Some(i) => name[..i]
  }

  /**
   * The name under which a converted upload is written into the archive (line 107):
   * a dot-free name is kept whole, otherwise everything from the last dot on is
   * replaced by `.docx`.
   */
  function EntryName(name: string): (r: string)
    ensures '.' !in name ==> r == name + ".docx"
    ensures '.' in name ==>
      exists k :: 0 <= k < |name| && name[k] == '.' && '.' !in name[k + 1..] && r == name[..k] + ".docx"
  {
    Stem(name) + DocxSuffix
  }

  /** The number of dots in `s`. */
  function DotCount(s: string): nat
  {
    multiset(s)['.']
  }

  /**
   * Stem is the only split of the name at a dot whose right-hand part has no dot:
   * whenever `name` is `head + "." + tail` with no dot in `tail`, Stem(name) is `head`.
   */
  lemma StemOfSplit(head: string, tail: string)
    requires '.' !in tail
    ensures Stem(head + "." + tail) == head
  {
    var name := head + "." + tail;
    // The dot between head and tail is the last one, since tail has none.
    assert name[|head|] == '.';
    assert name[|head| + 1..] == tail;
  }

  /** Only the text from the last dot on is replaced: `head.ext` becomes `head.docx`. */
  lemma EntryNameReplacesExtension(head: string, ext: string)
    requires '.' !in ext
    ensures EntryName(head + "." + ext) == head + ".docx"
  {
    StemOfSplit(head, ext);
  }

  /** The stem is the name itself exactly when the name has no dot. */
  lemma StemIsNameIff(name: string)
    ensures Stem(name) == name <==> '.' !in name
  {
  }

  /** Removing the last extension removes exactly one dot, and none when there is no dot. */
  lemma StemDotCount(name: string)
    ensures '.' in name ==> DotCount(Stem(name)) == DotCount(name) - 1
    ensures '.' !in name ==> DotCount(Stem(name)) == DotCount(name)
    ensures DotCount(Stem(name)) <= DotCount(name)
  {
    if '.' in name {
      var r := Stem(name);
      var tail := name[|r| + 1..];
      assert name == r + "." + tail;
      assert multiset(name) == multiset(r) + multiset(".") + multiset(tail);
      assert multiset(tail)['.'] == 0;
    }
  }

  /** The three naming cases: several dots, no dot, and a name that is only an extension. */
  lemma EntryNameExamples()
    ensures EntryName("a.b.jpg") == "a.b.docx"
    ensures EntryName("photo") == "photo.docx"
    ensures EntryName(".jpg") == ".docx"
  {
  }
}
