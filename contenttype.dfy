/**
 * Content-type normalisation used to select a codec: the media type is the part of the
 * header before the first ';' (its parameters follow the ';'), and media types compare
 * without regard to letter case.
 */
module ContentType {
  import opened Base

  /** strings.Index(s, string(c)): the position of the first c in s, or -1. */
  function IndexOf(s: string, c: char): (r: int)
    ensures -1 <= r < |s|
    ensures r == -1 <==> c !in s
    ensures r >= 0 ==> s[r] == c && c !in s[..r]
  {
    if |s| == 0 then -1
    else if s[0] == c then 0
    else
      var k := IndexOf(s[1..], c);
      if k == -1 then -1
      else
        assert s[..k + 1] == [s[0]] + s[1..][..k];
        k + 1
  }

  /** Lower-cases one ASCII letter; every other character is kept. */
  function Lower(ch: char): char
  {
    if 'A' <= ch <= 'Z' then ((ch as int) + 32) as char else ch
  }

  /** strings.ToLower, restricted to ASCII letters. */
  function ToLower(s: string): (r: string)
    ensures |r| == |s|
    ensures forall i :: 0 <= i < |s| ==> r[i] == Lower(s[i])
  {
    if s == [] then [] else [Lower(s[0])] + ToLower(s[1..])
  }

  /** a and b spell the same text up to the case of their letters. */
  predicate SameIgnoringCase(a: string, b: string)
  {
    |a| == |b| && forall i :: 0 <= i < |a| ==> Lower(a[i]) == Lower(b[i])
  }

  /** The header cut at its first ';': the media type without its parameters. */
  function MediaType(contentType: string): (r: string)
    ensures ';' !in r
    ensures r <= contentType
    ensures ';' !in contentType ==> r == contentType
    ensures ';' in contentType ==> contentType[|r|] == ';'
  {
    var idx := IndexOf(contentType, ';');
    if idx != -1 then contentType[..idx] else contentType
  }

  /** The codec table key a request's Content-Type header is looked up under. */
  function CodecKey(contentType: string): string
  {
    ToLower(MediaType(contentType))
  }

  /** The codec registered for a Content-Type header, if any. */
  function Lookup<C>(codecs: map<string, C>, contentType: string): Option<C>
  {
    var key := CodecKey(contentType);
    if key in codecs then Some(codecs[key]) else None
  }

  /** Lower-casing is idempotent, so a lower-cased key is its own lower-cased form. */
  lemma ToLowerIdempotent(s: string)
    ensures ToLower(ToLower(s)) == ToLower(s)
  {
    var t := ToLower(s);
    forall i | 0 <= i < |t|
      ensures ToLower(t)[i] == t[i]
    {
      assert t[i] == Lower(s[i]);
    }
  }

  /** A text without upper-case ASCII letters is its own lower-cased form. */
  lemma LowerCaseIsFixed(s: string)
    requires forall i :: 0 <= i < |s| ==> !('A' <= s[i] <= 'Z')
    ensures ToLower(s) == s
  {
    assert forall i :: 0 <= i < |s| ==> ToLower(s)[i] == s[i];
  }

  /** Texts that differ only in the case of their letters lower-case to the same text. */
  lemma CaseVariantsLowerAlike(a: string, b: string)
    requires SameIgnoringCase(a, b)
    ensures ToLower(a) == ToLower(b)
  {
    forall i | 0 <= i < |a|
      ensures ToLower(a)[i] == ToLower(b)[i]
    {
    }
  }

  /** Lower-casing neither introduces nor removes the parameter separator ';'. */
  lemma LoweringKeepsSemicolons(s: string)
    ensures ';' in ToLower(s) <==> ';' in s
  {
    if ';' in s {
      var i :| 0 <= i < |s| && s[i] == ';';
      assert ToLower(s)[i] == ';';
    }
    if ';' in ToLower(s) {
      var i :| 0 <= i < |s| && ToLower(s)[i] == ';';
      assert s[i] == ';';
    }
  }

  /** Whatever follows the first ';' does not change the media type. */
  lemma MediaTypeIgnoresParameters(t: string, p: string)
    requires ';' !in t
    ensures MediaType(t + ";" + p) == t
  {
    var s := t + ";" + p;
    var r := MediaType(s);
    assert s[|t|] == ';';
    assert r == s[..|t|];
  }

  /**
   * A codec key never contains ';': the key of every request is the key of a header
   * without parameters.
   */
  lemma CodecKeyHasNoParameters(u: string)
    ensures ';' !in CodecKey(u)
  {
    LoweringKeepsSemicolons(MediaType(u));
  }

  /** Normalising a header twice gives the key of the first normalisation. */
  lemma CodecKeyIdempotent(u: string)
    ensures CodecKey(CodecKey(u)) == CodecKey(u)
  {
    CodecKeyHasNoParameters(u);
    ToLowerIdempotent(MediaType(u));
  }

  /**
   * Every case variant u of a parameter-free content type t, with or without parameters
   * after a ';', is looked up under the key t was registered with.
   */
  lemma CodecKeyOfVariant(t: string, u: string, p: string)
    requires ';' !in t && SameIgnoringCase(t, u)
    ensures CodecKey(u) == ToLower(t)
    ensures CodecKey(u + ";" + p) == ToLower(t)
  {
    forall i | 0 <= i < |u|
      ensures u[i] != ';'
    {
      assert Lower(u[i]) == Lower(t[i]);
    }
    MediaTypeIgnoresParameters(u, p);
    CaseVariantsLowerAlike(t, u);
  }

  /** A content type registered with parameters can never be selected by any request. */
  lemma KeyWithParametersUnreachable(t: string, u: string)
    requires ';' in t
    ensures CodecKey(u) != ToLower(t)
  {
    CodecKeyHasNoParameters(u);
    LoweringKeepsSemicolons(t);
  }

  /**
   * After registering c under a parameter-free content type t, every case variant of t,
   * with or without parameters, selects c; a header with any other key selects what it
   * selected before.
   */
  lemma RegisteredCodecSelected<C>(codecs: map<string, C>, c: C, t: string, u: string, p: string, v: string)
    requires ';' !in t && SameIgnoringCase(t, u)
    ensures Lookup(codecs[ToLower(t) := c], u) == Some(c)
    ensures Lookup(codecs[ToLower(t) := c], u + ";" + p) == Some(c)
    ensures CodecKey(v) != ToLower(t) ==> Lookup(codecs[ToLower(t) := c], v) == Lookup(codecs, v)
  {
    CodecKeyOfVariant(t, u, p);
  }
}
