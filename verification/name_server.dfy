/**
 * The name server: a registry of storage-node peers. A registration body is
 * validated against the `Registry` model (a host that is a dotted-quad IPv4
 * address or a dotted host name, and a strict integer port in 0..65535);
 * accepted entries are appended to an in-memory list that `GET /` returns.
 */
module NameServer {
  import opened Wrappers
  import opened Strings

  /** One registered peer, as stored in the registry list. */
  datatype Entry = Entry(host: string, port: int)

  /** A JSON value of a request body field. */
  datatype JsonValue =
    | JNull
    | JBool(b: bool)
    | JInt(i: int)
    | JFloat(f: real)
    | JString(s: string)
    | JComposite  // a JSON array or object; never valid for either field

  /** A request body: the fields of the posted JSON object. */
  type Body = map<string, JsonValue>

  const MaxPort := 65535

  // ---------------------------------------------------------------------
  // IPv4 branch of the host pattern
  // ---------------------------------------------------------------------

  /** A decimal octet: one to three digits whose value is at most 255. */
  predicate IsOctet(d: string) {
    1 <= |d| <= 3 && AllDigits(d) && DigitsValue(d) <= 255
  }

  /** The octet alternation `25[0-5]|2[0-4][0-9]|[01]?[0-9][0-9]?`, read literally. */
  predicate OctetPattern(d: string) {
    || (|d| == 3 && d[0] == '2' && d[1] == '5' && '0' <= d[2] <= '5')
    || (|d| == 3 && d[0] == '2' && '0' <= d[1] <= '4' && IsDigit(d[2]))
    // the four ways `[01]?[0-9][0-9]?` can match
    || (|d| == 1 && IsDigit(d[0]))
    || (|d| == 2 && (d[0] == '0' || d[0] == '1') && IsDigit(d[1]))
    || (|d| == 2 && IsDigit(d[0]) && IsDigit(d[1]))
    || (|d| == 3 && (d[0] == '0' || d[0] == '1') && IsDigit(d[1]) && IsDigit(d[2]))
  }

  lemma DigitsValue1(d: string)
    requires |d| == 1 && AllDigits(d)
    ensures DigitsValue(d) == DigitValue(d[0])
  {
    assert d[..0] == [];
  }

  lemma DigitsValue2(d: string)
    requires |d| == 2 && AllDigits(d)
    ensures DigitsValue(d) == 10 * DigitValue(d[0]) + DigitValue(d[1])
  {
    DigitsValue1(d[..1]);
  }

  lemma DigitsValue3(d: string)
    requires |d| == 3 && AllDigits(d)
    ensures DigitsValue(d) == 100 * DigitValue(d[0]) + 10 * DigitValue(d[1]) + DigitValue(d[2])
  {
    DigitsValue2(d[..2]);
  }

  /** The octet alternation accepts exactly the digit strings of length 1–3 with value ≤ 255. */
  lemma OctetPatternIsOctet(d: string)
    ensures OctetPattern(d) <==> IsOctet(d)
  {
    if |d| == 3 && AllDigits(d) {
      DigitsValue3(d);
    } else if |d| == 2 && AllDigits(d) {
      DigitsValue2(d);
    } else if |d| == 1 && AllDigits(d) {
      DigitsValue1(d);
    }
  }

  /** Dotted quad: exactly four `.`-separated fields, each an octet. */
  predicate IsDottedQuad(s: string) {
    var f := Split(s, ".");
    |f| == 4 && forall i :: 0 <= i < 4 ==> IsOctet(f[i])
  }

  /** The first alternative of the host pattern, as a concatenation `o.o.o.o`. */
  ghost predicate Ipv4Pattern(s: string) {
    exists f: seq<string> ::
      |f| == 4 && (forall i :: 0 <= i < 4 ==> OctetPattern(f[i])) && s == Join(f, ".")
  }

  // ---------------------------------------------------------------------
  // Host-name branch of the host pattern
  // ---------------------------------------------------------------------

  /** Letter, digit or hyphen. */
  predicate IsLdh(c: char) { IsAlnum(c) || c == '-' }

  /** `[a-zA-Z0-9]|[a-zA-Z0-9][a-zA-Z0-9\-]*[a-zA-Z0-9]` */
  predicate IsLabel(l: string) {
    |l| > 0 && IsAlnum(l[0]) && IsAlnum(l[|l| - 1]) && forall i :: 0 <= i < |l| ==> IsLdh(l[i])
  }

  /** `[A-Za-z]|[A-Za-z][A-Za-z0-9\-]*[A-Za-z0-9]`: like a label, but it starts with a letter. */
  predicate IsFinalLabel(l: string) {
    |l| > 0 && IsLetter(l[0]) && IsAlnum(l[|l| - 1]) && forall i :: 0 <= i < |l| ==> IsLdh(l[i])
  }

  /** Fields of a host name: at least one label, then a final label. */
  predicate IsHostFields(f: seq<string>) {
    |f| >= 2 && (forall i :: 0 <= i < |f| - 1 ==> IsLabel(f[i])) && IsFinalLabel(f[|f| - 1])
  }

  /** At least one label followed by `.`, then a final label. */
  predicate IsHostName(s: string) {
    IsHostFields(Split(s, "."))
  }

  /** The second alternative of the host pattern, as a concatenation `(label.)+final`. */
  ghost predicate HostNamePattern(s: string) {
    exists f: seq<string> :: IsHostFields(f) && s == Join(f, ".")
  }

  /** The `host` constraint of the `Registry` model. */
  predicate IsValidHost(s: string) {
    IsDottedQuad(s) || IsHostName(s)
  }

  lemma DottedQuadMatchesPattern(s: string)
    ensures IsDottedQuad(s) <==> Ipv4Pattern(s)
  {
    if IsDottedQuad(s) {
      var f := Split(s, ".");
      forall i | 0 <= i < 4 ensures OctetPattern(f[i]) { OctetPatternIsOctet(f[i]); }
      assert |f| == 4 && s == Join(f, ".");
    }
    if Ipv4Pattern(s) {
      var f :| |f| == 4 && (forall i :: 0 <= i < 4 ==> OctetPattern(f[i])) && s == Join(f, ".");
      forall i | 0 <= i < 4
        ensures IsOctet(f[i]) && '.' !in f[i]
      {
        OctetPatternIsOctet(f[i]);
      }
      SplitJoin(f, '.');
    }
  }

  /** Labels and final labels contain no dot. */
  lemma LdhHasNoDot(l: string)
    requires forall i :: 0 <= i < |l| ==> IsLdh(l[i])
    ensures '.' !in l
  {
  }

  lemma HostNamePatternSplits(s: string, f: seq<string>)
    requires IsHostFields(f) && s == Join(f, ".")
    ensures Split(s, ".") == f
  {
    forall i | 0 <= i < |f|
      ensures '.' !in f[i]
    {
      if i < |f| - 1 {
        assert IsLabel(f[i]);
      }
      LdhHasNoDot(f[i]);
    }
    SplitJoin(f, '.');
  }

  lemma HostNameMatchesPattern(s: string)
    ensures IsHostName(s) <==> HostNamePattern(s)
  {
    if IsHostName(s) {
      var f := Split(s, ".");
      assert s == Join(f, ".");
    }
    if HostNamePattern(s) {
      var f :| IsHostFields(f) && s == Join(f, ".");
      HostNamePatternSplits(s, f);
    }
  }

  /** The validator accepts exactly the strings the host pattern matches in full. */
  lemma ValidHostMatchesPattern(s: string)
    ensures IsValidHost(s) <==> Ipv4Pattern(s) || HostNamePattern(s)
  {
    DottedQuadMatchesPattern(s);
    HostNameMatchesPattern(s);
  }

  /** A name with no dot at all, such as `localhost`, is rejected by both branches. */
  lemma SingleLabelRejected(s: string)
    requires '.' !in s
    ensures !IsValidHost(s)
  {
    ContainsChar(s, '.');
  }

  /** A name ending in `.` is rejected: its last field is empty. */
  lemma TrailingDotRejected(s: string)
    requires |s| > 0 && s[|s| - 1] == '.'
    ensures !IsValidHost(s)
  {
    LastFieldEmpty(s);
  }

  /** When `s` ends with `.`, the last field of its split is empty. */
  lemma LastFieldEmpty(s: string)
    requires |s| > 0 && s[|s| - 1] == '.'
    ensures var f := Split(s, "."); |f[|f| - 1]| == 0
  {
    var f := Split(s, ".");
    var last := f[|f| - 1];
    if |last| > 0 {
      SplitPiecesFree(s, '.');
      assert false;
    }
  }

  /**
   * Four fields of one to three digits where some field is above 255 match
   * neither branch: not an octet, and the final field starts with a digit.
   */
  lemma OctetOverflowRejected(s: string)
    requires var f := Split(s, ".");
      && |f| == 4
      && (forall i :: 0 <= i < 4 ==> 1 <= |f[i]| <= 3 && AllDigits(f[i]))
      && exists i :: 0 <= i < 4 && DigitsValue(f[i]) > 255
    ensures !IsValidHost(s)
  {
    var f := Split(s, ".");
    assert IsDigit(f[3][0]);
  }

  /** Splitting a four-field dotted string whose fields hold no dot. */
  lemma SplitFour(a: string, b: string, c: string, d: string)
    requires '.' !in a && '.' !in b && '.' !in c && '.' !in d
    ensures Split(a + "." + b + "." + c + "." + d, ".") == [a, b, c, d]
  {
    var f := [a, b, c, d];
    assert f[1..] == [b, c, d] && f[1..][1..] == [c, d] && f[1..][1..][1..] == [d];
    assert Join([c, d], ".") == c + "." + d;
    assert Join([b, c, d], ".") == b + "." + (c + "." + d);
    assert Join(f, ".") == a + "." + (b + "." + (c + "." + d));
    assert a + "." + b + "." + c + "." + d == a + "." + (b + "." + (c + "." + d));
    SplitJoin(f, '.');
  }

  // The examples below take the host as a parameter pinned by `requires`, so
  // that the verifier reasons about the split symbolically instead of
  // unrolling it on a literal.

  /** A digit string has no dot. */
  lemma DigitsHaveNoDot(d: string)
    requires AllDigits(d)
    ensures '.' !in d
  {
  }

  /** Four octets joined by dots form a valid host. */
  lemma QuadOfOctets(a: string, b: string, c: string, d: string)
    requires IsOctet(a) && IsOctet(b) && IsOctet(c) && IsOctet(d)
    ensures IsValidHost(a + "." + b + "." + c + "." + d)
  {
    DigitsHaveNoDot(a);
    DigitsHaveNoDot(b);
    DigitsHaveNoDot(c);
    DigitsHaveNoDot(d);
    SplitFour(a, b, c, d);
    var f := Split(a + "." + b + "." + c + "." + d, ".");
    assert f[0] == a && f[1] == b && f[2] == c && f[3] == d;
  }

  lemma ExampleAddress(s: string)
    requires s == "10.0.0.1"
    ensures IsValidHost(s)
  {
    assert s == "10" + "." + "0" + "." + "0" + "." + "1";
    DigitsValue2("10");
    DigitsValue1("0");
    DigitsValue1("1");
    QuadOfOctets("10", "0", "0", "1");
  }

  /** Leading zeros are accepted: any three digits starting with `0` form an octet. */
  lemma LeadingZerosAccepted(d: string)
    requires |d| == 3 && d[0] == '0' && AllDigits(d)
    ensures IsOctet(d)
  {
    DigitsValue3(d);
  }

  lemma ExampleOverflow(s: string)
    requires s == "256.1.1.1"
    ensures !IsValidHost(s)
  {
    var f := ["256", "1", "1", "1"];
    assert s == f[0] + "." + f[1] + "." + f[2] + "." + f[3];
    SplitFour(f[0], f[1], f[2], f[3]);
    DigitsValue3(f[0]);
    assert DigitsValue(f[0]) > 255;
    OctetOverflowRejected(s);
  }

  // ---------------------------------------------------------------------
  // Port and body validation
  // ---------------------------------------------------------------------

  /** Strict integer port: only a JSON integer in 0..65535 (no bool, float or string coercion). */
  predicate IsValidPort(v: JsonValue) {
    match v
    case JInt(p) => 0 <= p <= MaxPort
    case _ => false
  }

  predicate HostFieldValid(body: Body) {
    "host" in body && body["host"].JString? && IsValidHost(body["host"].s)
  }

  predicate PortFieldValid(body: Body) {
    "port" in body && IsValidPort(body["port"])
  }

  /**
   * Validation of a registration body against the `Registry` model. On
   * failure the error names every field that is missing or invalid.
   */
  function Validate(body: Body): (r: Result<Entry, set<string>>)
    ensures r.Success? <==>
      && "host" in body && body["host"].JString? && IsValidHost(body["host"].s)
      && "port" in body && body["port"].JInt? && 0 <= body["port"].i <= 65535
    ensures r.Success? ==> r.value.host == body["host"].s && r.value.port == body["port"].i
    ensures r.Failure? ==> r.error != {} && r.error <= {"host", "port"}
    ensures r.Failure? ==> ("port" in r.error <==> !("port" in body && body["port"].JInt? && 0 <= body["port"].i <= 65535))
    ensures r.Failure? ==> ("host" in r.error <==> !("host" in body && body["host"].JString? && IsValidHost(body["host"].s)))
  {
    if HostFieldValid(body) && PortFieldValid(body) then
      Success(Entry(body["host"].s, body["port"].i))
    else
      Failure((if HostFieldValid(body) then {} else {"host"})
              + (if PortFieldValid(body) then {} else {"port"}))
  }

  /**
   * Whatever the host, a port that is not a JSON integer in 0..65535 is
   * refused and named in the error: `"80"`, `80.0`, `true` and `65536` alike.
   */
  lemma StrictPortRefused(host: string, v: JsonValue)
    requires !(v.JInt? && 0 <= v.i <= MaxPort)
    ensures var r := Validate(map["host" := JString(host), "port" := v]);
      r.Failure? && "port" in r.error
  {
  }

  // ---------------------------------------------------------------------
  // The registry list
  // ---------------------------------------------------------------------

  /** Every stored entry satisfies the `Registry` model's constraints. */
  predicate AllValid(entries: seq<Entry>) {
    forall i :: 0 <= i < |entries| ==> IsValidHost(entries[i].host) && 0 <= entries[i].port <= MaxPort
  }

  /** Status code and new list after `POST /`: 200 and one appended entry, or 422 and no change. */
  function RegisterServer(entries: seq<Entry>, body: Body): (r: (seq<Entry>, int))
    ensures r.1 == 200 || r.1 == 422
    ensures r.1 == 200 <==> Validate(body).Success?
    ensures r.1 == 200 ==>
      && |r.0| == |entries| + 1
      && r.0[..|entries|] == entries
      && r.0[|entries|] == Entry(body["host"].s, body["port"].i)
    ensures r.1 == 422 ==> r.0 == entries
    ensures AllValid(entries) ==> AllValid(r.0)
  {
    match Validate(body)
    case Success(e) => (entries + [e], 200)
    case Failure(_) => (entries, 422)
  }

  /** `GET /`: every registered entry, in registration order. */
  function ReadServers(entries: seq<Entry>): (listed: seq<Entry>) {
    entries
  }

  /** The list after a run of registrations, starting from `entries`. */
  function RegisterAll(entries: seq<Entry>, bodies: seq<Body>): (after: seq<Entry>)
    decreases |bodies|
  {
    if |bodies| == 0 then entries
    else RegisterAll(RegisterServer(entries, bodies[0]).0, bodies[1..])
  }

  /** The entries the accepted bodies denote, in order; rejected bodies contribute nothing. */
  function Accepted(bodies: seq<Body>): (accepted: seq<Entry>)
    decreases |bodies|
  {
    if |bodies| == 0 then []
    else
      var rest := Accepted(bodies[1..]);
      match Validate(bodies[0])
      case Success(e) => [e] + rest
      case Failure(_) => rest
  }

  /**
   * After any run of registrations, `GET /` returns the earlier list followed
   * by every accepted entry in the order it was posted.
   */
  lemma {:induction false} ReadServersInOrder(entries: seq<Entry>, bodies: seq<Body>)
    ensures ReadServers(RegisterAll(entries, bodies)) == entries + Accepted(bodies)
    decreases |bodies|
  {
    if |bodies| > 0 {
      var v := Validate(bodies[0]);
      var next := RegisterServer(entries, bodies[0]).0;
      ReadServersInOrder(next, bodies[1..]);
      if v.Success? {
        assert next == entries + [v.value];
        assert Accepted(bodies) == [v.value] + Accepted(bodies[1..]);
      } else {
        assert next == entries;
        assert Accepted(bodies) == Accepted(bodies[1..]);
      }
    }
  }

  /** Registering the same valid pair twice keeps both copies: duplicates are not rejected. */
  lemma DuplicatesKept(entries: seq<Entry>, body: Body)
    requires Validate(body).Success?
    ensures var e := Validate(body).value;
      RegisterAll(entries, [body, body]) == entries + [e, e]
  {
    var e := Validate(body).value;
    assert [body, body][1..] == [body];
    assert RegisterAll(entries, [body, body]) == RegisterAll(entries + [e], [body]);
    assert [body][1..] == [];
  }
}
