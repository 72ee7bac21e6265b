/**
 * `sanitize_filename`: the topic folder name derived from a search query.
 * Every character that is not alphanumeric becomes '_', then the whole
 * string is lower-cased.
 */
module Sanitize {
  import opened Text

  /** The characters a sanitised name may contain. */
  predicate IsSafeChar(c: char)
  {
    '0' <= c <= '9' || 'a' <= c <= 'z' || c == '_'
  }

  predicate IsSafeName(s: string)
  {
    forall i :: 0 <= i < |s| ==> IsSafeChar(s[i])
  }

  /** The generator `c if c.isalnum() else "_"`, joined back into a string. */
  function ReplaceNonAlnum(name: string): (replaced: string)
    ensures |replaced| == |name|
    ensures forall i :: 0 <= i < |name| ==> (replaced[i] == name[i] <==> IsAlnum(name[i]) || name[i] == '_')
    ensures forall i :: 0 <= i < |name| && !IsAlnum(name[i]) ==> replaced[i] == '_'
    ensures forall i :: 0 <= i < |name| ==> IsAlnum(replaced[i]) || replaced[i] == '_'
  {
    seq(|name|, i requires 0 <= i < |name| => if IsAlnum(name[i]) then name[i] else '_')
  }

  /** The folder name is as long as the query and uses only lower-case letters, digits and '_'. */
  function SanitizeFilename(name: string): (folder: string)
    ensures |folder| == |name|
    ensures IsSafeName(folder)
  {
    Lower(ReplaceNonAlnum(name))
  }

  /** Position by position: letters are lower-cased, digits kept, everything else is '_'. */
  lemma SanitizeAt(name: string, i: nat)
    requires i < |name|
    ensures 'a' <= name[i] <= 'z' || '0' <= name[i] <= '9' ==> SanitizeFilename(name)[i] == name[i]
    ensures 'A' <= name[i] <= 'Z' ==> SanitizeFilename(name)[i] == (name[i] as int + 32) as char
    ensures !IsAlnum(name[i]) ==> SanitizeFilename(name)[i] == '_'
  {
  }

  /** A name is left unchanged exactly when it is already safe. */
  lemma SanitizeFixedPoints(name: string)
    ensures SanitizeFilename(name) == name <==> IsSafeName(name)
  {
    if IsSafeName(name) {
      assert forall i :: 0 <= i < |name| ==> SanitizeFilename(name)[i] == name[i];
    }
  }

  /** Sanitising twice gives the same folder as sanitising once. */
  lemma SanitizeIdempotent(name: string)
    ensures SanitizeFilename(SanitizeFilename(name)) == SanitizeFilename(name)
  {
    SanitizeFixedPoints(SanitizeFilename(name));
  }

  /** Sanitising works character by character: it distributes over concatenation. */
  lemma SanitizeConcat(a: string, b: string)
    ensures SanitizeFilename(a + b) == SanitizeFilename(a) + SanitizeFilename(b)
  {
    var whole := SanitizeFilename(a + b);
    assert forall i :: 0 <= i < |a| ==> (a + b)[i] == a[i];
    assert forall i :: |a| <= i < |a + b| ==> (a + b)[i] == b[i - |a|];
    assert whole[..|a|] == SanitizeFilename(a);
    assert whole[|a|..] == SanitizeFilename(b);
    assert whole == whole[..|a|] + whole[|a|..];
  }

  /** The topic folder of the last query in main. */
  lemma FaqQueryFolder()
    ensures SanitizeFilename("FAQs for IT clients") == "faqs_for_it_clients"
  {
  }
}
