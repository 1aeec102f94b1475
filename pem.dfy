/** `ExtractKeyFromPem`, the PEM body extractor that both helpers carry as an
    identical private copy (neither copy is called). */
module Pem {
  import opened Runtime
  import opened Text

  function Header(keyType: string): string
  {
    "-----BEGIN " + keyType + "-----"
  }

  function Footer(keyType: string): string
  {
    "-----END " + keyType + "-----"
  }

  /** The line-layout characters the body loses: '\n', '\r', ' ' and '\t'. */
  const Layout: set<char> := {'\n', '\r', ' ', '\t'}

  /** `.Replace("\n", "").Replace("\r", "").Replace(" ", "").Replace("\t", "")` */
  function StripLayout(s: string): (r: string)
    ensures r == Without(s, Layout)
  {
    StripLayoutIsWithout(s);
    Without(Without(Without(Without(s, {'\n'}), {'\r'}), {' '}), {'\t'})
  }

  /** The four removals in a row remove exactly the layout characters. */
  lemma StripLayoutIsWithout(s: string)
    ensures Without(Without(Without(Without(s, {'\n'}), {'\r'}), {' '}), {'\t'}) == Without(s, Layout)
  {
    var a: set<char> := {'\n'} + {'\r'};
    var b: set<char> := a + {' '};
    assert b + {'\t'} == Layout;
    WithoutTwice(s, {'\n'}, {'\r'});
    WithoutTwice(s, a, {' '});
    WithoutTwice(s, b, {'\t'});
  }

  /** Finds the first header, then the first footer after it, and returns
      the text between them without layout characters; null (None) when
      either marker is missing. */
  function ExtractKeyFromPem(pem: string, keyType: string): (r: Option<string>)
    ensures (forall j :: !OccursAt(pem, Header(keyType), j)) ==> r.None?
    ensures r.Some? ==> forall c :: c in r.value ==> c !in Layout
  {
    var header := Header(keyType);
    var footer := Footer(keyType);
    var start := IndexOf(pem, header, 0);
    if start == -1 then None
    else
      var bodyStart := start + |header|;
      var end := IndexOf(pem, footer, bodyStart);
      if end == -1 then None
      else
        var body := pem[bodyStart..end];
        WithoutMembers(body, Layout);
        Some(StripLayout(body))
  }

  /** `h` is the first index where the header occurs. */
  predicate FirstHeaderAt(pem: string, keyType: string, h: nat)
  {
    OccursAt(pem, Header(keyType), h) && forall j :: 0 <= j < h ==> !OccursAt(pem, Header(keyType), j)
  }

  /** With the first header at `h` and the first footer after it at `e`, the
      result is exactly the text between them minus layout characters. */
  lemma ExtractKeyFromPemBody(pem: string, keyType: string, h: nat, e: nat)
    requires FirstHeaderAt(pem, keyType, h)
    requires h + |Header(keyType)| <= e && OccursAt(pem, Footer(keyType), e)
    requires forall j :: h + |Header(keyType)| <= j < e ==> !OccursAt(pem, Footer(keyType), j)
    ensures ExtractKeyFromPem(pem, keyType) == Some(Without(pem[h + |Header(keyType)|..e], Layout))
  {
    var header, footer := Header(keyType), Footer(keyType);
    IndexOfFinds(pem, header, 0, h);
    IndexOfFinds(pem, footer, h + |header|, e);
    ExtractAt(pem, keyType, h, e);
  }

  /** The result once both searches are known to succeed. */
  lemma ExtractAt(pem: string, keyType: string, h: nat, e: nat)
    requires IndexOf(pem, Header(keyType), 0) == h
    requires h + |Header(keyType)| <= e <= |pem|
    requires IndexOf(pem, Footer(keyType), h + |Header(keyType)|) == e
    ensures ExtractKeyFromPem(pem, keyType) == Some(StripLayout(pem[h + |Header(keyType)|..e]))
  {
  }

  /** With a header but no footer anywhere after the first header, the
      result is null. */
  lemma ExtractKeyFromPemNoFooter(pem: string, keyType: string, h: nat)
    requires FirstHeaderAt(pem, keyType, h)
    requires forall j :: h + |Header(keyType)| <= j ==> !OccursAt(pem, Footer(keyType), j)
    ensures ExtractKeyFromPem(pem, keyType).None?
  {
    IndexOfFinds(pem, Header(keyType), 0, h);
  }
}
