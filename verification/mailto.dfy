/**
 * `mailto:` URIs as in section 2 of RFC 6068:
 * `mailto:` to `?` hfname `=` hfvalue `&` ... with each header value
 * percent-encoded. `Compose` writes one with `encodeURIComponent` values and
 * `Parse` reads one back.
 */
module Mailto {
  import opened Wrappers
  import opened Text
  import UriComponent

  datatype Header = Header(name: string, value: string)
  datatype Link = Link(to: string, headers: seq<Header>)

  const Scheme: string := "mailto:"

  /** `name=encodeURIComponent(value)`. */
  function FieldText(h: Header): string {
    h.name + "=" + UriComponent.Encode(h.value)
  }

  function FieldTexts(hs: seq<Header>): (fs: seq<string>)
    ensures |fs| == |hs|
    ensures forall i :: 0 <= i < |hs| ==> fs[i] == FieldText(hs[i])
  {
    if hs == [] then [] else [FieldText(hs[0])] + FieldTexts(hs[1..])
  }

  /** The URI for `to` with the given header fields in order. */
  function Compose(to: string, hs: seq<Header>): string {
    Scheme + to + (if hs == [] then "" else "?" + Join(FieldTexts(hs), '&'))
  }

  /** A URI with two header fields. */
  lemma ComposeTwo(to: string, h1: Header, h2: Header)
    ensures Compose(to, [h1, h2]) == Scheme + to + "?" + FieldText(h1) + "&" + FieldText(h2)
  {
    var f1, f2 := FieldText(h1), FieldText(h2);
    assert FieldTexts([h1, h2]) == [f1, f2];
    JoinTwo(f1, f2, '&');
  }

  /** One `hfname=hfvalue`, the value percent-decoded; split at the first `=`. */
  function ParseField(f: string): Option<Header> {
    var k := IndexOf(f, '=');
    if k == |f| then None
    else match UriComponent.Decode(f[k + 1..])
      case Some(v) => Some(Header(f[..k], v))
      case None => None
  }

  function ParseFields(fs: seq<string>): Option<seq<Header>> {
    if fs == [] then Some([])
    else match (ParseField(fs[0]), ParseFields(fs[1..]))
      case (Some(h), Some(hs)) => Some([h] + hs)
      case _ => None
  }

  /**
   * Reads a `mailto:` URI: the recipient runs up to the first `?`, and the
   * query after it is a `&`-separated list of header fields.
   */
  function Parse(url: string): Option<Link> {
    if |url| < |Scheme| || url[..|Scheme|] != Scheme then None
    else
      var rest := url[|Scheme|..];
      var q := IndexOf(rest, '?');
      if q == |rest| then Some(Link(rest, []))
      else match ParseFields(Split(rest[q + 1..], '&'))
        case Some(hs) => Some(Link(rest[..q], hs))
        case None => None
  }

  /** Header names the reader can split off unambiguously. */
  predicate PlainName(name: string) {
    '&' !in name && '=' !in name
  }

  lemma ParseFieldText(h: Header)
    requires PlainName(h.name)
    ensures ParseField(FieldText(h)) == Some(h)
  {
    var f := FieldText(h);
    var e := UriComponent.Encode(h.value);
    assert f[..|h.name|] == h.name;
    assert f[|h.name|] == '=';
    assert IndexOf(f, '=') == |h.name|;
    assert f[|h.name| + 1..] == e;
    UriComponent.DecodeEncode(h.value);
  }

  lemma ParseFieldTexts(hs: seq<Header>)
    requires forall i :: 0 <= i < |hs| ==> PlainName(hs[i].name)
    ensures ParseFields(FieldTexts(hs)) == Some(hs)
  {
    forall i | 0 <= i < |hs| ensures ParseField(FieldTexts(hs)[i]) == Some(hs[i]) {
      ParseFieldText(hs[i]);
    }
    ParseEach(FieldTexts(hs), hs);
  }

  /** A list of fields each of which reads back as its header reads back as the list of headers. */
  lemma {:induction false} ParseEach(fs: seq<string>, hs: seq<Header>)
    requires |fs| == |hs|
    requires forall i :: 0 <= i < |fs| ==> ParseField(fs[i]) == Some(hs[i])
    ensures ParseFields(fs) == Some(hs)
  {
    if fs != [] {
      ParseEach(fs[1..], hs[1..]);
      assert hs == [hs[0]] + hs[1..];
    }
  }

  /** No field text holds `&`: names exclude it and encoded values cannot hold it. */
  lemma FieldTextsPlain(hs: seq<Header>)
    requires forall i :: 0 <= i < |hs| ==> PlainName(hs[i].name)
    ensures forall i :: 0 <= i < |hs| ==> '&' !in FieldTexts(hs)[i]
  {
    forall i | 0 <= i < |hs| ensures '&' !in FieldTexts(hs)[i] {
      FieldTextPlain(hs[i]);
    }
  }

  lemma FieldTextPlain(h: Header)
    requires PlainName(h.name)
    ensures '&' !in FieldText(h)
  {
    var e := UriComponent.Encode(h.value);
    assert '&' !in e by {
      UriComponent.EncodeSafe(h.value);
      forall j | 0 <= j < |e| ensures e[j] != '&' {
        assert UriComponent.Safe(e[j]);
      }
    }
  }

  lemma ParseNoQuery(to: string)
    requires '?' !in to
    ensures Parse(Scheme + to) == Some(Link(to, []))
  {
    var url := Scheme + to;
    assert url[..|Scheme|] == Scheme;
    assert url[|Scheme|..] == to;
  }

  lemma ParseQuery(to: string, query: string)
    requires '?' !in to
    ensures Parse(Scheme + to + "?" + query) ==
      match ParseFields(Split(query, '&'))
      case Some(hs) => Some(Link(to, hs))
      case None => None
  {
    var url := Scheme + to + "?" + query;
    var rest := to + "?" + query;
    assert url == Scheme + rest;
    assert url[..|Scheme|] == Scheme;
    assert url[|Scheme|..] == rest;
    IndexOfFirst(to, '?', query);
    var q := IndexOf(rest, '?');
    assert q == |to| && q < |rest|;
    assert rest[q + 1..] == query;
    assert rest[..q] == to;
  }

  /**
   * Reading back a composed URI gives the recipient and every header, in
   * order and with its value exactly as given, whenever the recipient has no
   * `?` and the header names have no `&` or `=`.
   */
  lemma ParseCompose(to: string, hs: seq<Header>)
    requires '?' !in to
    requires forall i :: 0 <= i < |hs| ==> PlainName(hs[i].name)
    ensures Parse(Compose(to, hs)) == Some(Link(to, hs))
  {
    if hs == [] {
      assert Compose(to, hs) == Scheme + to;
      ParseNoQuery(to);
    } else {
      var query := Join(FieldTexts(hs), '&');
      assert Compose(to, hs) == Scheme + to + "?" + query;
      ParseQuery(to, query);
      FieldTextsPlain(hs);
      SplitJoin(FieldTexts(hs), '&');
      ParseFieldTexts(hs);
    }
  }
}
