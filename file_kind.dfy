/**
 * Choosing how to read the dump from its file name (`read_xml` in
 * src/main.rs). The file-system checks and the opening of the file are I/O
 * and are not modelled: the input is the file name, already known to be
 * valid UTF-8.
 */
module FileKind {

  /** The three readers `read_xml` can build. */
  datatype Compression =
    | Raw               // the file is read as XML directly
    | Bzip2             // a single bzip2 stream
    | MultistreamBzip2  // a concatenation of independent bzip2 streams

  const MultistreamSuffix: string := "multistream.xml.bz2"
  const Bzip2Suffix: string := ".xml.bz2"

  /** Rust's `u8::to_ascii_lowercase` on one character: only `A`..`Z` change. */
  function AsciiLower(c: char): (r: char)
    ensures !('A' <= r <= 'Z')
    ensures !('A' <= c <= 'Z') ==> r == c
    ensures 'A' <= c <= 'Z' ==> 'a' <= r <= 'z' && r as int - c as int == 'a' as int - 'A' as int
  {
    if 'A' <= c <= 'Z' then (c as int - 'A' as int + 'a' as int) as char else c
  }

  /** `String::make_ascii_lowercase`: every character folded by `AsciiLower`. */
  function AsciiLowercase(s: string): (r: string)
    ensures |r| == |s|
    ensures forall i :: 0 <= i < |r| ==> !('A' <= r[i] <= 'Z')
    ensures forall i :: 0 <= i < |s| && !('A' <= s[i] <= 'Z') ==> r[i] == s[i]
    ensures forall i :: 0 <= i < |s| && 'A' <= s[i] <= 'Z' ==> r[i] as int == s[i] as int + ('a' as int - 'A' as int)
  {
    seq(|s|, i requires 0 <= i < |s| => AsciiLower(s[i]))
  }

  predicate EndsWith(s: string, suffix: string) {
    |suffix| <= |s| && s[|s| - |suffix|..] == suffix
  }

  /**
   * The classification of `read_xml`: the lower-cased name is tested for the
   * multistream suffix first, then for the plain bzip2 suffix, and anything
   * else is raw XML.
   */
  function Classify(fileName: string): (c: Compression)
    ensures c == MultistreamBzip2 <==> EndsWith(AsciiLowercase(fileName), MultistreamSuffix)
    ensures c == Bzip2 <==>
      EndsWith(AsciiLowercase(fileName), Bzip2Suffix) && !EndsWith(AsciiLowercase(fileName), MultistreamSuffix)
    ensures c == Raw <==> !EndsWith(AsciiLowercase(fileName), Bzip2Suffix)
  {
    var lower := AsciiLowercase(fileName);
    if EndsWith(lower, MultistreamSuffix) then
      MultistreamSuffixIsBzip2Suffix(lower);
      MultistreamBzip2
    else if EndsWith(lower, Bzip2Suffix) then
      Bzip2
    else
      Raw
  }

  /** Every multistream name also carries the plain bzip2 suffix, which is why the order of the tests matters. */
  lemma MultistreamSuffixIsBzip2Suffix(s: string)
    requires EndsWith(s, MultistreamSuffix)
    ensures EndsWith(s, Bzip2Suffix)
  {
    var n := |s|;
    assert s[n - |MultistreamSuffix|..] == MultistreamSuffix;
    assert MultistreamSuffix[|MultistreamSuffix| - |Bzip2Suffix|..] == Bzip2Suffix;
    assert s[n - |Bzip2Suffix|..] == MultistreamSuffix[|MultistreamSuffix| - |Bzip2Suffix|..];
  }

  /** Two names whose characters agree up to ASCII case are classified alike. */
  lemma ClassifyIgnoresAsciiCase(a: string, b: string)
    requires |a| == |b|
    requires forall i :: 0 <= i < |a| ==> AsciiLower(a[i]) == AsciiLower(b[i])
    ensures Classify(a) == Classify(b)
  {
    assert AsciiLowercase(a) == AsciiLowercase(b);
  }

  /** Lower-casing the name first does not change its classification. */
  lemma ClassifyLowercased(name: string)
    ensures Classify(AsciiLowercase(name)) == Classify(name)
  {
    var lower := AsciiLowercase(name);
    forall i | 0 <= i < |name|
      ensures AsciiLower(lower[i]) == AsciiLower(name[i])
    {
    }
    ClassifyIgnoresAsciiCase(lower, name);
  }

  /** Lower-casing distributes over concatenation. */
  lemma AsciiLowercaseAppend(a: string, b: string)
    ensures AsciiLowercase(a + b) == AsciiLowercase(a) + AsciiLowercase(b)
  {
  }

  /** Any stem followed by an extension spelling `multistream.xml.bz2` in any ASCII case is multistream. */
  lemma ClassifyMultistreamName(stem: string, ext: string)
    requires AsciiLowercase(ext) == MultistreamSuffix
    ensures Classify(stem + ext) == MultistreamBzip2
  {
    AsciiLowercaseAppend(stem, ext);
    var lower := AsciiLowercase(stem + ext);
    assert lower[|lower| - |MultistreamSuffix|..] == AsciiLowercase(ext);
  }

  /**
   * A stem followed by an extension spelling `.xml.bz2` in any ASCII case is a
   * single bzip2 stream, unless the stem itself ends in `multistream`.
   */
  lemma ClassifyBzip2Name(stem: string, ext: string)
    requires AsciiLowercase(ext) == Bzip2Suffix
    requires !EndsWith(AsciiLowercase(stem), "multistream")
    ensures Classify(stem + ext) == Bzip2
  {
    AsciiLowercaseAppend(stem, ext);
    var lower := AsciiLowercase(stem + ext);
    var ls := AsciiLowercase(stem);
    assert lower == ls + Bzip2Suffix;
    assert lower[|lower| - |Bzip2Suffix|..] == Bzip2Suffix;
  }

  /** The usual name of an English dump is multistream. */
  lemma ClassifyDumpName()
    ensures Classify("enwiki-latest-pages-articles-" + "multistream.xml.bz2") == MultistreamBzip2
  {
    ClassifyMultistreamName("enwiki-latest-pages-articles-", "multistream.xml.bz2");
  }

  /** Mixed case does not hide the bzip2 suffix. */
  lemma ClassifyMixedCaseName()
    ensures Classify("dump" + ".XML.Bz2") == Bzip2
  {
    ClassifyBzip2Name("dump", ".XML.Bz2");
  }

  /** A name without the bzip2 suffix is raw XML. */
  lemma ClassifyRawName()
    ensures Classify("dump.xml") == Raw
  {
    var lower := AsciiLowercase("dump.xml");
    assert lower[0] == 'd';
    assert lower[|lower| - |Bzip2Suffix|..][0] != Bzip2Suffix[0];
  }
}
