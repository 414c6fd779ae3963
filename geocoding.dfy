/** The address query of `get_location_coordinates`. The HTTP request,
    the JSON answer and the API key lookup are not modelled. */
module Geocoding {

  const GeocodeEndpoint: string := "https://maps.googleapis.com/maps/api/geocode/json?address="

  /** `s.replace(c, d)` for single characters: every `c` becomes `d`,
      every other character stays where it is. */
  function Replace(s: string, c: char, d: char): (r: string)
    ensures |r| == |s|
    ensures forall i :: 0 <= i < |r| ==> r[i] == (if s[i] == c then d else s[i])
  {
    if s == [] then []
    else [if s[0] == c then d else s[0]] + Replace(s[1..], c, d)
  }

  /** `address.replace(" ", "+")`: every space becomes a plus sign, every
      other character stays where it is. */
  function PlusEncode(address: string): (q: string)
    ensures |q| == |address|
    ensures forall i :: 0 <= i < |q| ==> q[i] == (if address[i] == ' ' then '+' else address[i])
  {
    Replace(address, ' ', '+')
  }

  /** The request URL: the endpoint, then the address with no space left
      in it, then `&key=` and the key. */
  function GeocodeUrl(address: string, apiKey: string): (url: string)
    ensures GeocodeEndpoint <= url
    ensures |url| == |GeocodeEndpoint| + |address| + 5 + |apiKey|
    ensures forall i :: |GeocodeEndpoint| <= i < |GeocodeEndpoint| + |address| ==> url[i] != ' '
    ensures url[|GeocodeEndpoint|..|GeocodeEndpoint| + |address|] == PlusEncode(address)
    ensures url[|url| - |apiKey| - 5..] == "&key=" + apiKey
  {
    var q := PlusEncode(address);
    UrlParts(GeocodeEndpoint, q, apiKey);
    PlusEncodeClean(address);
    GeocodeEndpoint + q + "&key=" + apiKey
  }

  /** Where the three parts of a query URL sit. */
  lemma UrlParts(e: string, q: string, k: string)
    ensures var url := e + q + "&key=" + k;
            && |url| == |e| + |q| + 5 + |k|
            && url[..|e|] == e
            && url[|e|..|e| + |q|] == q
            && url[|url| - |k| - 5..] == "&key=" + k
  {
    var url := e + q + "&key=" + k;
    assert url == e + (q + ("&key=" + k));
  }

  /** Reading a query value back: every plus sign is a space again. */
  function PlusDecode(query: string): (a: string)
    ensures |a| == |query|
    ensures forall i :: 0 <= i < |a| ==> a[i] == (if query[i] == '+' then ' ' else query[i])
  {
    Replace(query, '+', ' ')
  }

  /** An address without plus signs of its own is read back from the
      query unchanged; one with a plus sign is not, since the encoding
      cannot tell it from a space. */
  lemma PlusRoundTrip(address: string)
    ensures '+' !in address ==> PlusDecode(PlusEncode(address)) == address
    ensures '+' in address ==> PlusDecode(PlusEncode(address)) != address
  {
    var back := PlusDecode(PlusEncode(address));
    if '+' in address {
      var i :| 0 <= i < |address| && address[i] == '+';
      assert back[i] == ' ';
    } else {
      assert forall i :: 0 <= i < |address| ==> back[i] == address[i];
    }
  }

  /** The encoded address holds no space, and encoding it again changes
      nothing. */
  lemma {:induction false} PlusEncodeClean(address: string)
    ensures ' ' !in PlusEncode(address)
    ensures PlusEncode(PlusEncode(address)) == PlusEncode(address)
  {
    var q := PlusEncode(address);
    assert forall i :: 0 <= i < |q| ==> q[i] != ' ';
  }
}
