/**
 * Address normalisation of the proxy package: portCheck and reAddr.
 *
 * A bare port ("3307") becomes "127.0.0.1:3307"; a "host:port" string is
 * returned unchanged once its port checks out; more than one colon is
 * rejected. The host is never inspected: the IPv4 pattern the code consults
 * begins with a literal '/' before its start-of-text anchor, so it can never
 * match and its errIp branch is dead.
 */
module Address {
  import opened Errors
  import opened Strings
  import opened Strconv

  /** What reAddr puts in front of a bare port. */
  const LoopbackPrefix: string := "127.0.0.1:"

  const MaxPort: int := 65535

  /** Text that portCheck accepts: Atoi syntax with a value in [0, 65535]. */
  predicate IsPortText(s: string) {
    IsIntegerText(s) && 0 <= TextValue(s) <= MaxPort
  }

  /**
   * portCheck: None when `s` is a valid port. Atoi's own error comes back
   * for text that is not a 64-bit integer, errPort for an integer outside
   * the port range.
   */
  function PortCheck(s: string): (r: Option<Error>)
    ensures r == None <==> IsPortText(s)
    ensures r == Some(ErrPort) <==>
              IsIntegerText(s) && MinInt64 <= TextValue(s) <= MaxInt64 && !(0 <= TextValue(s) <= MaxPort)
    ensures r.Some? && r != Some(ErrPort) ==>
              r.value.NumError? && r.value.num == s &&
              (!IsIntegerText(s) || !(MinInt64 <= TextValue(s) <= MaxInt64))
  {
    AtoiSpec(s);
    match Atoi(s)
    case Err(e) => Some(e)
    case Ok(a) => if a < 0 || a > MaxPort then Some(ErrPort) else None
  }

  /** One alternative of the octet group `(\d|[1-9]\d|1\d\d|2[0-4]\d|25[0-5])`. */
  predicate IsOctet(o: string) {
    || (|o| == 1 && IsDigit(o[0]))
    || (|o| == 2 && '1' <= o[0] <= '9' && IsDigit(o[1]))
    || (|o| == 3 && o[0] == '1' && IsDigit(o[1]) && IsDigit(o[2]))
    || (|o| == 3 && o[0] == '2' && '0' <= o[1] <= '4' && IsDigit(o[2]))
    || (|o| == 3 && o[0] == '2' && o[1] == '5' && '0' <= o[2] <= '5')
  }

  /** `(octet\.){3}octet$`: four octets separated by dots, up to the end of the text. */
  predicate IsDottedQuad(t: string) {
    var parts := Split(t, '.');
    |parts| == 4 && forall k :: 0 <= k < |parts| ==> IsOctet(parts[k])
  }

  /** The `^` anchor, outside multi-line mode, holds only at offset 0. */
  predicate AtTextStart(offset: int) { offset == 0 }

  /**
   * ipReg.MatchString(host) for the pattern as written: a '/' at some offset
   * p, then `^` at offset p + 1, then a dotted quad reaching the end. The
   * anchor cannot hold after a consumed character, so nothing matches.
   */
  function IpPatternMatches(host: string): (m: bool)
    ensures !m
  {
    exists p | 0 <= p < |host| :: host[p] == '/' && AtTextStart(p + 1) && IsDottedQuad(host[p + 1..])
  }

  /** reAddr: normalise a listen or dial address. */
  function ReAddr(s: string): Result<string> {
    var ipPort := Split(s, ':');
    if |ipPort| == 1 then
      match PortCheck(s)
      case Some(e) => Err(e)
      case None => Ok(LoopbackPrefix + s)
    else if |ipPort| != 2 then Err(ErrAddr)
    else if IpPatternMatches(ipPort[0]) then Err(ErrIp)
    else
      match PortCheck(ipPort[1])
      case Some(e) => Err(e)
      case None => Ok(s)
  }

  /**
   * A colon-free string is a bare port: it is rewritten to
   * "127.0.0.1:" + s, keeping its original text ("+80" stays "+80"),
   * exactly when portCheck accepts it, and otherwise fails with
   * portCheck's error.
   */
  lemma BarePort(s: string)
    requires ':' !in s
    ensures ReAddr(s) == if IsPortText(s) then Ok(LoopbackPrefix + s) else Err(PortCheck(s).value)
  {
  }

  /**
   * A string with exactly one colon is returned unchanged when the text after
   * the colon is a valid port, whatever precedes the colon (an empty host
   * included); otherwise it fails with portCheck's error for that text.
   */
  lemma HostPort(host: string, port: string)
    requires ':' !in host && ':' !in port
    ensures ReAddr(host + ":" + port) ==
              if IsPortText(port) then Ok(host + ":" + port) else Err(PortCheck(port).value)
  {
    SplitTwo(host, port, ':');
  }

  /** Two or more colons are rejected with errAddr, whatever the text. */
  lemma ManyColons(s: string)
    requires Count(s, ':') >= 2
    ensures ReAddr(s) == Err(ErrAddr)
  {
  }

  /**
   * reAddr fails only with Atoi's error, errPort or errAddr; in particular
   * never with errIp.
   */
  lemma ReAddrErrors(s: string)
    requires ReAddr(s).Err?
    ensures ReAddr(s).error.NumError? || ReAddr(s).error == ErrPort || ReAddr(s).error == ErrAddr
  {
  }

  /**
   * Every address reAddr produces has exactly one colon, and the text after
   * it is a valid port.
   */
  lemma {:induction false} ReAddrShape(s: string)
    requires ReAddr(s).Ok?
    ensures var t := ReAddr(s).value;
            Count(t, ':') == 1 && IsPortText(Split(t, ':')[1])
  {
    var parts := Split(s, ':');
    if |parts| == 1 {
      var t := LoopbackPrefix + s;
      assert ':' !in s;
      assert LoopbackPrefix == "127.0.0.1" + ":";
      SplitTwo("127.0.0.1", s, ':');
      CountConcat(LoopbackPrefix, s, ':');
    } else {
      SplitJoin(s, ':');
      assert s == parts[0] + ":" + parts[1];
    }
  }

  /** Normalising twice is normalising once. */
  lemma ReAddrIdempotent(s: string)
    requires ReAddr(s).Ok?
    ensures ReAddr(ReAddr(s).value) == ReAddr(s)
  {
    var t := ReAddr(s).value;
    ReAddrShape(s);
    var parts := Split(t, ':');
    SplitJoin(t, ':');
    assert t == parts[0] + ":" + parts[1];
    HostPort(parts[0], parts[1]);
  }

  /** A bare port gains the loopback host. */
  lemma ExampleBarePort()
    ensures ReAddr("3307") == Ok("127.0.0.1:3307")
  {
    var s := "3307";
    assert !HasSign(s) && AllDigits(s);
    assert "3"[..0] == "" && DecimalValue("3") == 3;
    assert "33"[..1] == "3" && DecimalValue("33") == 33;
    assert "330"[..2] == "33" && DecimalValue("330") == 330;
    assert s[..3] == "330" && DecimalValue(s) == 3307;
    assert IsPortText(s);
    assert ':' !in s;
    BarePort(s);
    assert LoopbackPrefix + s == "127.0.0.1:3307";
  }

  /** An integer beyond 65535 is errPort. */
  lemma ExamplePortRange()
    ensures ReAddr("999999") == Err(ErrPort)
  {
    var s := "999999";
    assert !HasSign(s) && AllDigits(s);
    assert "9"[..0] == "" && DecimalValue("9") == 9;
    assert "99"[..1] == "9" && DecimalValue("99") == 99;
    assert "999"[..2] == "99" && DecimalValue("999") == 999;
    assert "9999"[..3] == "999" && DecimalValue("9999") == 9999;
    assert "99999"[..4] == "9999" && DecimalValue("99999") == 99999;
    assert s[..5] == "99999" && DecimalValue(s) == 999999;
    assert PortCheck(s) == Some(ErrPort);
    assert ':' !in s;
    BarePort(s);
  }

  /** Two colons are errAddr before any port is looked at. */
  lemma ExampleTwoColons()
    ensures ReAddr("a:1:2") == Err(ErrAddr)
  {
    assert "a:1:2" == "a" + [':'] + ("1" + [':'] + "2");
    SplitTwo("1", "2", ':');
    SplitAtFirst("a", "1" + [':'] + "2", ':');
  }

  /** Atoi's sign is accepted and the original text is kept. */
  lemma ExampleSignedPorts()
    ensures ReAddr("+80") == Ok("127.0.0.1:+80")
    ensures ReAddr(":-0") == Ok(":-0")
  {
    assert Unsigned("+80") == "80" && AllDigits("80") && "80"[..1] == "8" && "8"[..0] == "";
    assert IsPortText("+80");
    assert ':' !in "+80";
    BarePort("+80");
    assert LoopbackPrefix + "+80" == "127.0.0.1:+80";
    assert Unsigned("-0") == "0" && AllDigits("0") && "0"[..0] == "";
    assert IsPortText("-0");
    HostPort("", "-0");
    assert "" + ":" + "-0" == ":-0";
  }

  /** A service name is not a port: Atoi's syntax error comes back. */
  lemma ExampleNamedPort()
    ensures ReAddr("localhost:http") == Err(NumError("http", ErrSyntax))
  {
    assert Unsigned("http") == "http" && !IsDigit("http"[0]);
    assert ScanDecimal("http", 0, 0) == BadDigit;
    assert Atoi("http") == Err(NumError("http", ErrSyntax));
    assert ':' !in "localhost" && ':' !in "http";
    HostPort("localhost", "http");
    assert "localhost" + ":" + "http" == "localhost:http";
  }
}
