/** The request the test sends: a header value of `headerSize` random
    lower-case letters, `headerCount` custom headers named "X-TomcatTest0",
    "X-TomcatTest1", ... that all carry that value, and the header list
    handed to the HPACK encoder, which puts the three pseudo-headers of a
    GET request first. */
module RequestHeaders {
  import opened Wrappers

  /** A header as `MimeHeaders.addValue(name).setString(value)` adds it. */
  type Header = (string, string)

  const CustomHeaderPrefix: string := "X-TomcatTest"

  /** The character for a decimal digit. */
  function DigitChar(d: nat): (c: char)
    requires d < 10
    ensures '0' <= c <= '9'
  {
    (('0' as int) + d) as char
  }

  /** The digit a decimal character stands for. */
  function DigitValue(c: char): (d: nat)
    requires '0' <= c <= '9'
    ensures d < 10 && DigitChar(d) == c
  {
    (c as int) - ('0' as int)
  }

  predicate IsDecimal(s: string)
  {
    forall i :: 0 <= i < |s| ==> '0' <= s[i] <= '9'
  }

  /** Java's `Integer.toString` of a non-negative `int`, which string
      concatenation uses: the shortest decimal form, with no leading zero. */
  function Decimal(n: nat): (s: string)
    ensures |s| >= 1 && IsDecimal(s)
    ensures s[0] == '0' <==> n == 0
    decreases n
  {
    if n < 10 then [DigitChar(n)] else Decimal(n / 10) + [DigitChar(n % 10)]
  }

  /** The value of a string of decimal digits. */
  function DecimalValue(s: string): nat
    requires IsDecimal(s)
    decreases |s|
  {
    if s == [] then 0 else DecimalValue(s[..|s| - 1]) * 10 + DigitValue(s[|s| - 1])
  }

  /** Reading back the decimal form gives the number. */
  lemma {:induction false} DecimalRoundTrip(n: nat)
    ensures DecimalValue(Decimal(n)) == n
    decreases n
  {
    var s := Decimal(n);
    if n < 10 {
      assert s[..0] == [];
    } else {
      DecimalRoundTrip(n / 10);
      assert s[..|s| - 1] == Decimal(n / 10);
    }
  }

  /** Distinct numbers have distinct decimal forms. */
  lemma DecimalInjective(a: nat, b: nat)
    requires Decimal(a) == Decimal(b)
    ensures a == b
  {
    DecimalRoundTrip(a);
    DecimalRoundTrip(b);
  }

  /** The name of custom header number `i`: "X-TomcatTest" + i. */
  function CustomHeaderName(i: nat): string
  {
    CustomHeaderPrefix + Decimal(i)
  }

  /** Distinct custom headers have distinct names. */
  lemma CustomHeaderNameInjective(i: nat, j: nat)
    requires CustomHeaderName(i) == CustomHeaderName(j)
    ensures i == j
  {
    var n := |CustomHeaderPrefix|;
    assert CustomHeaderName(i)[n..] == Decimal(i);
    assert CustomHeaderName(j)[n..] == Decimal(j);
    DecimalInjective(i, j);
  }

  predicate IsLowerCase(v: string)
  {
    forall i :: 0 <= i < |v| ==> 'a' <= v[i] <= 'z'
  }

  /** The header value: `headerSize` characters `'a' + r.nextInt(26)`; the
      random draw is any number from 0 to 25. A negative `headerSize`
      makes `new StringBuilder(headerSize)` throw, and no value is built. */
  method RandomHeaderValue(headerSize: int) returns (v: Option<string>)
    ensures v.None? <==> headerSize < 0
    ensures v.Some? ==> |v.value| == headerSize && IsLowerCase(v.value)
  {
    if headerSize < 0 {
      return None;
    }
    var headerValue := [];
    for i := 0 to headerSize
      invariant |headerValue| == i && IsLowerCase(headerValue)
    {
      var draw :| 0 <= draw < 26;
      headerValue := headerValue + [(('a' as int) + draw) as char];
    }
    v := Some(headerValue);
  }

  /** The map after `put`-ting the first `count` custom headers, all
      with value `v`. */
  function CustomHeaderMap(count: nat, v: string): map<string, string>
  {
    if count == 0 then map[] else CustomHeaderMap(count - 1, v)[CustomHeaderName(count - 1) := v]
  }

  /** The map holds exactly `count` entries: the names "X-TomcatTest" + i
      for i below `count`, each mapped to `v`. */
  lemma {:induction false} CustomHeaderMapContents(count: nat, v: string)
    ensures var m := CustomHeaderMap(count, v);
      && |m| == count
      && (forall i :: 0 <= i < count ==> CustomHeaderName(i) in m)
      && (forall name :: name in m ==>
            m[name] == v && exists i :: 0 <= i < count && name == CustomHeaderName(i))
  {
    if count > 0 {
      CustomHeaderMapContents(count - 1, v);
      var before, name := CustomHeaderMap(count - 1, v), CustomHeaderName(count - 1);
      if name in before {
        var i :| 0 <= i < count - 1 && name == CustomHeaderName(i);
        CustomHeaderNameInjective(count - 1, i);
        assert false;
      }
      assert forall n :: n in before[name := v] ==> n == name || n in before;
    }
  }

  /** The custom header map: `headerCount` entries "X-TomcatTest" + i, for
      i from 0, all mapped to `v`; a negative count puts nothing in. */
  method BuildCustomHeaders(headerCount: int, v: string) returns (customHeaders: map<string, string>)
    ensures customHeaders == CustomHeaderMap(if headerCount < 0 then 0 else headerCount, v)
    ensures |customHeaders| == if headerCount < 0 then 0 else headerCount
    ensures forall i :: 0 <= i < headerCount ==> CustomHeaderName(i) in customHeaders
    ensures forall name :: name in customHeaders ==>
              customHeaders[name] == v && exists i :: 0 <= i < headerCount && name == CustomHeaderName(i)
  {
    customHeaders := map[];
    var i := 0;
    while i < headerCount
      invariant if headerCount < 0 then i == 0 else 0 <= i <= headerCount
      invariant customHeaders == CustomHeaderMap(i, v)
    {
      customHeaders := customHeaders[CustomHeaderName(i) := v];
      i := i + 1;
    }
    CustomHeaderMapContents(i, v);
  }

  /** `populateHeadersPayload` up to the encoder: the pseudo-headers
      `:method`, `:path` and `:authority`, in that order, then every custom
      header once, in the map's (unspecified) iteration order. */
  method PopulateHeaderList(customHeaders: map<string, string>, port: nat)
    returns (headers: seq<Header>)
    ensures |headers| == |customHeaders| + 3
    ensures headers[0] == (":method", "GET")
    ensures headers[1] == (":path", "/simple")
    ensures headers[2] == (":authority", "localhost:" + Decimal(port))
    ensures forall j :: 3 <= j < |headers| ==>
              headers[j].0 in customHeaders && customHeaders[headers[j].0] == headers[j].1
    ensures forall j, j' :: 3 <= j < j' < |headers| ==> headers[j].0 != headers[j'].0
    ensures forall name :: name in customHeaders ==>
              exists j :: 3 <= j < |headers| && headers[j].0 == name
  {
    headers := [(":method", "GET"), (":path", "/simple"), (":authority", "localhost:" + Decimal(port))];
    var remaining := customHeaders.Keys;
    while remaining != {}
      invariant remaining <= customHeaders.Keys
      invariant |headers| == |customHeaders| - |remaining| + 3
      invariant headers[0] == (":method", "GET") && headers[1] == (":path", "/simple")
      invariant headers[2] == (":authority", "localhost:" + Decimal(port))
      invariant forall j :: 3 <= j < |headers| ==>
                  headers[j].0 in customHeaders && headers[j].0 !in remaining
                  && customHeaders[headers[j].0] == headers[j].1
      invariant forall j, j' :: 3 <= j < j' < |headers| ==> headers[j].0 != headers[j'].0
      invariant forall name :: name in customHeaders && name !in remaining ==>
                  exists j :: 3 <= j < |headers| && headers[j].0 == name
      decreases |remaining|
    {
      var name :| name in remaining;
      ghost var before := headers;
      headers := headers + [(name, customHeaders[name])];
      assert headers[|headers| - 1].0 == name;
      assert forall j :: 0 <= j < |before| ==> headers[j] == before[j];
      remaining := remaining - {name};
    }
  }

  /** `customHeaders.values().iterator().next()`, which sizes the payload
      buffer: some value of the map, in the map's (unspecified) iteration
      order; on an empty map the iterator throws and there is none. */
  method FirstCustomValue(customHeaders: map<string, string>) returns (v: Option<string>)
    ensures v.None? <==> |customHeaders| == 0
    ensures v.Some? ==> v.value in customHeaders.Values
  {
    if |customHeaders| == 0 {
      return None;
    }
    var name :| name in customHeaders;
    v := Some(customHeaders[name]);
  }

  /** The request `doTestHeaderLimits` builds before sending: the header
      value, the custom header map, the payload-buffer sizing that needs a
      first custom header, and the header list of `populateHeadersPayload`.
      When `headerSize` is negative or there is no custom header, the test
      throws before any request is built. Otherwise the list holds
      `headerCount + 3` headers with distinct names, the pseudo-headers
      first and then the custom ones, all with one lower-case value of
      length `headerSize`. */
  method BuildRequestHeaders(headerCount: int, headerSize: int, port: nat)
    returns (r: Option<seq<Header>>)
    ensures r.None? <==> headerSize < 0 || headerCount <= 0
    ensures r.Some? ==> |r.value| == headerCount + 3
    ensures r.Some? ==> r.value[0] == (":method", "GET") && r.value[1] == (":path", "/simple")
    ensures r.Some? ==> r.value[2] == (":authority", "localhost:" + Decimal(port))
    ensures r.Some? ==> forall j, j' :: 3 <= j < j' < |r.value| ==> r.value[j].0 != r.value[j'].0
    ensures r.Some? ==> forall j :: 3 <= j < |r.value| ==>
              |r.value[j].1| == headerSize && IsLowerCase(r.value[j].1)
              && exists i :: 0 <= i < headerCount && r.value[j].0 == CustomHeaderName(i)
    ensures r.Some? ==> forall j :: 3 <= j < |r.value| ==> r.value[j].1 == r.value[3].1
    ensures r.Some? ==> forall i :: 0 <= i < headerCount ==>
              exists j :: 3 <= j < |r.value| && r.value[j].0 == CustomHeaderName(i)
  {
    var v := RandomHeaderValue(headerSize);
    if v.None? {
      return None;
    }
    var customHeaders := BuildCustomHeaders(headerCount, v.value);
    var first := FirstCustomValue(customHeaders);
    if first.None? {
      return None;
    }
    var headers := PopulateHeaderList(customHeaders, port);
    r := Some(headers);
  }
}
