/** Choice of the output compressor from the file name (`Main.wrapOutput`). */
module Compression {

  /** The stream wrapper placed between the CSV writer and the byte counter. */
  datatype Codec = Deflate | Gzip | Bzip2 | Identity

  predicate EndsWith(s: string, suffix: string) {
    |suffix| <= |s| && s[|s| - |suffix|..] == suffix
  }

  const DEFLATE_SUFFIX: string := ".deflate"
  const GZIP_SUFFIX: string := ".gz"
  const BZIP2_SUFFIX: string := ".bz2"

  /**
   * `wrapOutput`: the suffixes are tried in the order `.deflate`, `.gz`,
   * `.bz2`, and a name matching none of them is written uncompressed (never
   * an error). Because no name can end in two of these suffixes, each codec
   * is chosen exactly when its own suffix is present, whatever the order.
   */
  function Select(name: string): (c: Codec)
    ensures c == Deflate <==> EndsWith(name, DEFLATE_SUFFIX)
    ensures c == Gzip <==> EndsWith(name, GZIP_SUFFIX)
    ensures c == Bzip2 <==> EndsWith(name, BZIP2_SUFFIX)
    ensures c == Identity <==>
      !EndsWith(name, DEFLATE_SUFFIX) && !EndsWith(name, GZIP_SUFFIX) && !EndsWith(name, BZIP2_SUFFIX)
  {
    SuffixesExclusive(name);
    if EndsWith(name, DEFLATE_SUFFIX) then Deflate
    else if EndsWith(name, GZIP_SUFFIX) then Gzip
    else if EndsWith(name, BZIP2_SUFFIX) then Bzip2
    else Identity
  }

  /** The three suffixes end in different characters, so at most one matches. */
  lemma SuffixesExclusive(name: string)
    ensures !(EndsWith(name, DEFLATE_SUFFIX) && EndsWith(name, GZIP_SUFFIX))
    ensures !(EndsWith(name, DEFLATE_SUFFIX) && EndsWith(name, BZIP2_SUFFIX))
    ensures !(EndsWith(name, GZIP_SUFFIX) && EndsWith(name, BZIP2_SUFFIX))
  {
    forall suffix | EndsWith(name, suffix) && |suffix| > 0
      ensures name[|name| - 1] == suffix[|suffix| - 1]
    {
      assert name[|name| - |suffix|..][|suffix| - 1] == name[|name| - 1];
    }
  }

  /**
   * `Path.getFileName().toString()` for a path written with `/` separators:
   * the part after the last separator.
   */
  function FileName(path: string): (name: string)
    ensures EndsWith(path, name)
    ensures '/' !in name
    ensures |name| == |path| || path[|path| - |name| - 1] == '/'
  {
    if |path| == 0 then ""
    else if path[|path| - 1] == '/' then ""
    else
      var prefix := FileName(path[..|path| - 1]);
      assert path[..|path| - 1][|path| - 1 - |prefix|..] == prefix;
      prefix + [path[|path| - 1]]
  }

  /**
   * Dispatching on the file name or on the whole path gives the same codec,
   * because none of the suffixes contains a separator.
   */
  lemma SelectOnPath(path: string)
    ensures Select(FileName(path)) == Select(path)
  {
    var name := FileName(path);
    SuffixOfName(path, name, DEFLATE_SUFFIX);
    SuffixOfName(path, name, GZIP_SUFFIX);
    SuffixOfName(path, name, BZIP2_SUFFIX);
  }

  /** A separator-free suffix of a path is a suffix of its last component. */
  lemma SuffixOfName(path: string, name: string, suffix: string)
    requires EndsWith(path, name) && '/' !in name
    requires |name| == |path| || path[|path| - |name| - 1] == '/'
    requires '/' !in suffix
    ensures EndsWith(name, suffix) <==> EndsWith(path, suffix)
  {
    if EndsWith(name, suffix) {
      assert path[|path| - |suffix|..] == name[|name| - |suffix|..];
    }
    if EndsWith(path, suffix) {
      assert path[|path| - |suffix|..] == name[|name| - |suffix|..];
    }
  }

  /** The suffix cases of the unit test, with an arbitrary stem. */
  lemma SelectExamples(stem: string)
    ensures Select(stem + ".deflate") == Deflate
    ensures Select(stem + ".gz") == Gzip
    ensures Select(stem + ".bz2") == Bzip2
    ensures Select("test.txt") == Identity
  {
    assert (stem + ".deflate")[|stem|..] == ".deflate";
    assert (stem + ".gz")[|stem|..] == ".gz";
    assert (stem + ".bz2")[|stem|..] == ".bz2";
  }
}
