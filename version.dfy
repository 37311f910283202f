/** The protocol-version token of a request line, as `parseHTTPVer` in
    main.go decodes it: "HTTP/" followed by a digit, any byte, and a digit. */
module Version {
  import opened Wrappers
  import opened ByteStrings

  /** Go's `(int, int, bool)` result: major, minor and whether decoding worked. */
  datatype HttpVersion = HttpVersion(major: int, minor: int, ok: bool)

  const Prefix: Bytes := "HTTP/"

  /** The token whose length a general-path version must have. */
  const Pattern: Bytes := "HTTP/X.Y"

  /** `strconv.ParseUint(b, 10, 0)` on a one-byte string: a decimal digit or
      an error. */
  function ParseDigit(b: Byte): (r: Option<int>)
    ensures r.Some? <==> IsDigit(b)
    ensures r.Some? ==> 0 <= r.value <= 9 && r.value + '0' as int == b as int
  {
    if IsDigit(b) then Some(b as int - '0' as int) else None
  }

  /** The byte that spells digit `d`. */
  function DigitByte(d: int): (b: Byte)
    requires 0 <= d <= 9
    ensures IsDigit(b) && ParseDigit(b) == Some(d)
  {
    ('0' as int + d) as char
  }

  /** `parseHTTPVer`: the fast path for the two common tokens, then the
      general path. The result is characterised by the general path alone:
      the fast path answers exactly what the general path would. */
  function ParseHTTPVer(vers: Bytes): (r: HttpVersion)
    ensures r.ok <==> |vers| == 8 && HasPrefix(vers, Prefix) && IsDigit(vers[5]) && IsDigit(vers[7])
    ensures r.ok ==> Some(r.major) == ParseDigit(vers[5]) && Some(r.minor) == ParseDigit(vers[7])
    ensures r.ok ==> 0 <= r.major <= 9 && 0 <= r.minor <= 9
    ensures !r.ok ==> r == HttpVersion(0, 0, false)
  {
    if vers == "HTTP/1.1" then HttpVersion(1, 1, true)
    else if vers == "HTTP/1.0" then HttpVersion(1, 0, true)
    else if !HasPrefix(vers, Prefix) then HttpVersion(0, 0, false)
    else if |vers| != |Pattern| then HttpVersion(0, 0, false)
    else
      match ParseDigit(vers[5])
      case None => HttpVersion(0, 0, false)
      case Some(maj) =>
        match ParseDigit(vers[7])
        case None => HttpVersion(0, 0, false)
        case Some(min) => HttpVersion(maj, min, true)
  }

  /** The token for version `major.minor`, with `dot` at offset 6. */
  function FormatVersion(major: int, dot: Byte, minor: int): (v: Bytes)
    requires 0 <= major <= 9 && 0 <= minor <= 9
    ensures |v| == |Pattern|
  {
    Prefix + [DigitByte(major), dot, DigitByte(minor)]
  }

  /** Every single-digit version, whatever byte stands at offset 6, decodes
      to its two digits. */
  lemma FormatThenParse(major: int, dot: Byte, minor: int)
    requires 0 <= major <= 9 && 0 <= minor <= 9
    ensures ParseHTTPVer(FormatVersion(major, dot, minor)) == HttpVersion(major, minor, true)
  {
    var v := FormatVersion(major, dot, minor);
    assert v[..5] == Prefix && v[5] == DigitByte(major) && v[7] == DigitByte(minor);
  }

  /** Every token that decodes is the formatted form of what it decodes to. */
  lemma ParseThenFormat(vers: Bytes)
    requires ParseHTTPVer(vers).ok
    ensures var r := ParseHTTPVer(vers); vers == FormatVersion(r.major, vers[6], r.minor)
  {
    var r := ParseHTTPVer(vers);
    var v := FormatVersion(r.major, vers[6], r.minor);
    assert vers[..5] == Prefix;
    assert forall i :: 0 <= i < 8 ==> vers[i] == v[i];
  }

  /** The byte at offset 6 (the '.') is never inspected. */
  lemma DotIsIgnored(vers: Bytes, dot: Byte)
    requires |vers| == |Pattern|
    ensures ParseHTTPVer(vers[6 := dot]) == ParseHTTPVer(vers)
  {
    var w := vers[6 := dot];
    assert w[..5] == vers[..5];
  }

  /** The fast path's answers and a few other tokens. */
  lemma Samples()
    ensures ParseHTTPVer("HTTP/1.1") == HttpVersion(1, 1, true)
    ensures ParseHTTPVer("HTTP/1.0") == HttpVersion(1, 0, true)
    ensures ParseHTTPVer("HTTP/2.0") == HttpVersion(2, 0, true)
    ensures ParseHTTPVer("HTTP/1") == HttpVersion(0, 0, false)
    ensures ParseHTTPVer("http/1.1") == HttpVersion(0, 0, false)
    ensures ParseHTTPVer("HTTP/1x1") == HttpVersion(1, 1, true)
  {
    FormatThenParse(2, '.', 0);
    FormatThenParse(1, 'x', 1);
    var lower: Bytes := "http/1.1";
    assert lower[0] != Prefix[0];
  }
}
