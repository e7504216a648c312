/** The request URL shared by `http_post` and `http_get`: strip the leading slashes from the
    path, then format `"%s:%u/%s"` from the host, the port and what is left of the path. */
module Url {

  /** A C `unsigned int`, the type of the port. */
  type Unsigned = n: nat | n <= 0xFFFF_FFFF

  // ---------------------------------------------------------------- `%u`

  function Digit(d: nat): (c: char)
    requires d < 10
    ensures '0' <= c <= '9' && c as int - '0' as int == d
  {
    ('0' as int + d) as char
  }

  predicate AllDigits(s: string)
  {
    forall i :: 0 <= i < |s| ==> '0' <= s[i] <= '9'
  }

  /** The decimal digits `%u` prints for `n`: at least one digit, no leading zero. */
  function Decimal(n: nat): (s: string)
    ensures |s| >= 1 && AllDigits(s)
    ensures s[0] == '0' <==> n == 0
    ensures n == 0 ==> s == "0"
    decreases n
  {
    if n < 10 then [Digit(n)] else Decimal(n / 10) + [Digit(n % 10)]
  }

  /** Reading a run of decimal digits back as a number. */
  function ParseDecimal(s: string): nat
    requires AllDigits(s)
    decreases |s|
  {
    if s == [] then 0
    else ParseDecimal(s[..|s| - 1]) * 10 + (s[|s| - 1] as int - '0' as int)
  }

  /** The digits printed for the port read back as the port itself. */
  lemma {:induction false} DecimalRoundTrip(n: nat)
    ensures ParseDecimal(Decimal(n)) == n
    decreases n
  {
    if n >= 10 {
      DecimalRoundTrip(n / 10);
      var s := Decimal(n);
      assert s[..|s| - 1] == Decimal(n / 10);
    }
  }

  function Pow10(k: nat): (p: nat)
    ensures p >= 1
  {
    if k == 0 then 1 else 10 * Pow10(k - 1)
  }

  /** A number below `10^k` prints in at most `k` digits. */
  lemma {:induction false} DecimalLengthBound(n: nat, k: nat)
    requires 1 <= k && n < Pow10(k)
    ensures |Decimal(n)| <= k
    decreases k
  {
    if n >= 10 {
      assert k > 1;
      DecimalLengthBound(n / 10, k - 1);
    }
  }

  /** A port prints in at most ten digits. */
  lemma PortDigits(port: Unsigned)
    ensures 1 <= |Decimal(port)| <= 10
  {
    assert Pow10(10) == 10_000_000_000;
    DecimalLengthBound(port, 10);
  }

  // ---------------------------------------------------------------- the path

  /** The path with its run of leading slashes removed, and nothing else. */
  function Stripped(path: string): (r: string)
    ensures |r| <= |path| && r == path[|path| - |r|..]
    ensures r == [] || r[0] != '/'
    ensures forall i :: 0 <= i < |path| - |r| ==> path[i] == '/'
    decreases |path|
  {
    if path != [] && path[0] == '/' then Stripped(path[1..]) else path
  }

  /** A suffix of the path is the stripped path exactly when everything before it is a slash
      and it does not itself start with one. */
  lemma {:induction false} StrippedCharacterized(path: string, k: nat)
    requires k <= |path|
    ensures path[k..] == Stripped(path) <==>
      (forall i :: 0 <= i < k ==> path[i] == '/') && (k == |path| || path[k] != '/')
  {
    var r := Stripped(path);
    var j := |path| - |r|;
    assert j < |path| ==> path[j] == r[0];
    if (forall i :: 0 <= i < k ==> path[i] == '/') && (k == |path| || path[k] != '/') {
      assert k == j;
    }
  }

  /** The loop that advances `path` past its leading slashes; returns how far it advanced. */
  method StripLeadingSlashes(path: string) returns (start: nat)
    ensures start <= |path|
    ensures forall i :: 0 <= i < start ==> path[i] == '/'
    ensures start == |path| || path[start] != '/'
    ensures path[start..] == Stripped(path)
  {
    start := 0;
    while start < |path| && path[start] == '/'
      invariant start <= |path|
      invariant forall i :: 0 <= i < start ==> path[i] == '/'
    {
      start := start + 1;
    }
    StrippedCharacterized(path, start);
  }

  // ---------------------------------------------------------------- the URL

  /** `"%s:%u/%s"`. */
  function Format(host: string, port: Unsigned, path: string): string
  {
    host + ":" + Decimal(port) + "/" + path
  }

  /** The URL `http_post` and `http_get` hand to the transport. */
  method BuildUrl(host: string, port: Unsigned, path: string) returns (url: string)
    ensures url == Format(host, port, Stripped(path))
  {
    var start := StripLeadingSlashes(path);
    url := Format(host, port, path[start..]);
  }

  /** Where each part of `"%s:%u/%s"` lands in the formatted string. */
  lemma FormatLayout(host: string, digits: string, rest: string)
    ensures var url := host + ":" + digits + "/" + rest;
      var d := |digits|;
      && |url| == |host| + d + 2 + |rest|
      && url[..|host|] == host
      && url[|host|] == ':'
      && url[|host| + 1..|host| + 1 + d] == digits
      && url[|host| + 1 + d] == '/'
      && url[|host| + 2 + d..] == rest
  {
  }

  /** The URL reads back as its parts: the host, a colon, the port's digits, a slash and the
      stripped path, so no leading slash of the path survives after the separator. */
  lemma UrlParts(host: string, port: Unsigned, path: string)
    ensures var url := Format(host, port, Stripped(path));
      var d := |Decimal(port)|;
      && |url| == |host| + d + 2 + |Stripped(path)|
      && url[..|host|] == host
      && url[|host|] == ':'
      && url[|host| + 1..|host| + 1 + d] == Decimal(port)
      && url[|host| + 1 + d] == '/'
      && url[|host| + 2 + d..] == Stripped(path)
      && (|host| + 2 + d == |url| || url[|host| + 2 + d] != '/')
  {
    FormatLayout(host, Decimal(port), Stripped(path));
  }

  /** The digits between the host's colon and the path's slash read back as the port. */
  lemma UrlPort(host: string, port: Unsigned, path: string)
    ensures var url := Format(host, port, Stripped(path));
      var digits := url[|host| + 1..|host| + 1 + |Decimal(port)|];
      AllDigits(digits) && ParseDecimal(digits) == port
  {
    UrlParts(host, port, path);
    DecimalRoundTrip(port);
  }

  /** However many leading slashes the path has, the URL is the same. */
  lemma {:induction false} LeadingSlashesIrrelevant(host: string, port: Unsigned, slashes: string, path: string)
    requires forall i :: 0 <= i < |slashes| ==> slashes[i] == '/'
    ensures Format(host, port, Stripped(slashes + path)) == Format(host, port, Stripped(path))
    decreases |slashes|
  {
    if slashes != [] {
      assert (slashes + path)[0] == '/';
      assert (slashes + path)[1..] == slashes[1..] + path;
      LeadingSlashesIrrelevant(host, port, slashes[1..], path);
    } else {
      assert slashes + path == path;
    }
  }
}
