/** The files a chunker writes: chunk `i` (counting from 1) goes to
    `<dir>/<stem>_part<i>.md`. Writing is not modelled; the list of
    (path, contents) pairs is what a chunker hands back. */
module PartFiles {
  import opened Strings

  datatype PartFile = PartFile(dir: string, name: string, text: string)

  /** `f"{stem}_part{i}.md"`. */
  function PartName(stem: string, i: nat): string
  {
    stem + "_part" + NatToString(i) + ".md"
  }

  /** Two parts of one stem never share a file name, so no chunk overwrites
      another. */
  lemma PartNamesDistinct(stem: string, i: nat, j: nat)
    requires i != j
    ensures PartName(stem, i) != PartName(stem, j)
  {
    var a, b := NatToString(i), NatToString(j);
    var p := stem + "_part";
    if PartName(stem, i) == PartName(stem, j) {
      var n := PartName(stem, i);
      assert |a| == |b|;
      assert n[|p|..|p| + |a|] == a;
      assert n[|p|..|p| + |b|] == b;
      NatToStringInjective(i, j);
    }
  }

  /** The naming loop `for i, chunk in enumerate(chunks, 1)`: one file per
      chunk, numbered contiguously from 1 in chunk order. */
  method NameParts(dir: string, stem: string, chunks: seq<string>) returns (files: seq<PartFile>)
    ensures |files| == |chunks|
    ensures forall k :: 0 <= k < |chunks| ==> files[k] == PartFile(dir, PartName(stem, k + 1), chunks[k])
  {
    files := [];
    for i := 1 to |chunks| + 1
      invariant |files| == i - 1
      invariant forall k :: 0 <= k < i - 1 ==> files[k] == PartFile(dir, PartName(stem, k + 1), chunks[k])
    {
      files := files + [PartFile(dir, PartName(stem, i), chunks[i - 1])];
    }
  }
}
