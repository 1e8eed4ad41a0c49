/** The first message between two gateways: the destination printed as "a.b.c.d:port".

    `Print` is what fmt's "%s:%d" makes of an IPv4 address and a port; `Parse` is the reading of
    such a string by net.Dial, for numeric hosts (an empty port is port 0). */
module Preamble {
  import opened Words

  const ZERO: byte := 48
  const DOT: byte := 46
  const COLON: byte := 58

  // ---------------------------------------------------------------- printing

  function Decimal(n: nat): (s: seq<byte>)
    ensures |s| >= 1
  {
    if n < 10 then [ZERO + n] else Decimal(n / 10) + [ZERO + n % 10]
  }

  function PrintHost(e: Endpoint): seq<byte> {
    Decimal(e.a) + [DOT] + (Decimal(e.b) + [DOT] + (Decimal(e.c) + [DOT] + Decimal(e.d)))
  }

  function Print(e: Endpoint): seq<byte> {
    PrintHost(e) + [COLON] + Decimal(e.port)
  }

  // ---------------------------------------------------------------- parsing

  predicate AllDigits(s: seq<byte>) {
    forall i | 0 <= i < |s| :: ZERO <= s[i] <= ZERO + 9
  }

  function Value(s: seq<byte>): nat
    requires AllDigits(s)
  {
    if s == [] then 0 else 10 * Value(s[..|s| - 1]) + (s[|s| - 1] - ZERO)
  }

  /** The parts before and after the first `sep`. */
  function Split(s: seq<byte>, sep: byte): Option<(seq<byte>, seq<byte>)> {
    if s == [] then None
    else if s[0] == sep then Some(([], s[1..]))
    else
      match Split(s[1..], sep)
      case Some((left, right)) => Some(([s[0]] + left, right))
      case None => None
  }

  function ParseOctet(s: seq<byte>): Option<byte> {
    if AllDigits(s) && s != [] && (|s| == 1 || s[0] != ZERO) && Value(s) < 0x100 then Some(Value(s)) else None
  }

  function ParsePort(s: seq<byte>): Option<u16> {
    if AllDigits(s) && Value(s) < 0x1_0000 then Some(Value(s)) else None
  }

  /** A field, and what follows the dot behind it. */
  function ParseField(s: seq<byte>): Option<(byte, seq<byte>)> {
    match Split(s, DOT)
    case Some((left, right)) =>
      (match ParseOctet(left)
       case Some(octet) => Some((octet, right))
       case None => None)
    case None => None
  }

  function ParseHost(s: seq<byte>): Option<(byte, byte, byte, byte)> {
    match ParseField(s)
    case None => None
    case Some((a, s1)) =>
      match ParseField(s1)
      case None => None
      case Some((b, s2)) =>
        match ParseField(s2)
        case None => None
        case Some((c, s3)) =>
          match ParseOctet(s3)
          case None => None
          case Some(d) => Some((a, b, c, d))
  }

  function Parse(s: seq<byte>): Option<Endpoint> {
    match Split(s, COLON)
    case None => None
    case Some((host, port)) =>
      match (ParseHost(host), ParsePort(port))
      case (Some((a, b, c, d)), Some(p)) => Some(Endpoint(a, b, c, d, p))
      case _ => None
  }

  // ---------------------------------------------------------------- numbers

  lemma {:induction false} DecimalIsNumeral(n: nat)
    ensures AllDigits(Decimal(n)) && Value(Decimal(n)) == n
    ensures |Decimal(n)| == 1 || Decimal(n)[0] != ZERO
    ensures DOT !in Decimal(n) && COLON !in Decimal(n)
  {
    if n >= 10 {
      DecimalIsNumeral(n / 10);
      assert Decimal(n)[..|Decimal(n)| - 1] == Decimal(n / 10);
    } else {
      assert Value([]) == 0;
    }
  }

  lemma {:induction false} DecimalLength(n: nat)
    ensures n < 1000 ==> |Decimal(n)| <= 3
    ensures n < 0x1_0000 ==> |Decimal(n)| <= 5
  {
    if n >= 10 {
      assert |Decimal(n)| == |Decimal(n / 10)| + 1;
      if n >= 100 {
        assert |Decimal(n / 10)| == |Decimal(n / 100)| + 1;
        if n >= 1000 {
          assert |Decimal(n / 100)| == |Decimal(n / 1000)| + 1;
        }
      }
    }
  }

  /** Cutting digits off a number leaves a smaller one. */
  lemma {:induction false} CutNumeral(n: nat, m: nat)
    requires m < |Decimal(n)| && AllDigits(Decimal(n)[..m])
    ensures Value(Decimal(n)[..m]) == n <==> n == 0
    ensures Value(Decimal(n)[..m]) <= n
  {
    if n < 10 {
      assert Decimal(n)[..m] == [];
    } else {
      assert Decimal(n)[..m] == Decimal(n / 10)[..m];
      if m == |Decimal(n / 10)| {
        assert Decimal(n / 10)[..m] == Decimal(n / 10);
        DecimalIsNumeral(n / 10);
      } else {
        CutNumeral(n / 10, m);
      }
    }
  }

  // ---------------------------------------------------------------- separators

  lemma {:induction false} SplitAt(left: seq<byte>, sep: byte, right: seq<byte>)
    requires sep !in left
    ensures Split(left + [sep] + right, sep) == Some((left, right))
  {
    var s := left + [sep] + right;
    if left == [] {
      assert s[1..] == right;
    } else {
      SplitAt(left[1..], sep, right);
      assert s[1..] == left[1..] + [sep] + right;
      assert [left[0]] + left[1..] == left;
    }
  }

  lemma {:induction false} SplitNowhere(s: seq<byte>, sep: byte)
    requires sep !in s
    ensures Split(s, sep) == None
  {
    if s != [] {
      SplitNowhere(s[1..], sep);
    }
  }

  lemma FieldOf(n: byte, rest: seq<byte>)
    ensures ParseField(Decimal(n) + [DOT] + rest) == Some((n, rest))
  {
    DecimalIsNumeral(n);
    SplitAt(Decimal(n), DOT, rest);
  }

  lemma HostOf(e: Endpoint)
    ensures ParseHost(PrintHost(e)) == Some((e.a, e.b, e.c, e.d))
    ensures COLON !in PrintHost(e)
  {
    FieldOf(e.a, Decimal(e.b) + [DOT] + (Decimal(e.c) + [DOT] + Decimal(e.d)));
    FieldOf(e.b, Decimal(e.c) + [DOT] + Decimal(e.d));
    FieldOf(e.c, Decimal(e.d));
    DecimalIsNumeral(e.a);
    DecimalIsNumeral(e.b);
    DecimalIsNumeral(e.c);
    DecimalIsNumeral(e.d);
  }

  // ---------------------------------------------------------------- the theorems

  /** Printing and parsing undo each other. */
  lemma ParsePrint(e: Endpoint)
    ensures Parse(Print(e)) == Some(e)
  {
    HostOf(e);
    SplitAt(PrintHost(e), COLON, Decimal(e.port));
    DecimalIsNumeral(e.port);
  }

  /** The far gateway's comparison with its own address: equal strings, equal endpoints. */
  lemma PrintIsInjective(e1: Endpoint, e2: Endpoint)
    ensures Print(e1) == Print(e2) <==> e1 == e2
  {
    ParsePrint(e1);
    ParsePrint(e2);
  }

  /** The message fits a 256-byte read with room to spare. */
  lemma PrintFits(e: Endpoint)
    ensures 9 <= |Print(e)| <= 21
  {
    DecimalLength(e.a);
    DecimalLength(e.b);
    DecimalLength(e.c);
    DecimalLength(e.d);
    DecimalLength(e.port);
  }

  /** A read that stops short yields a string that leads to the destination in one case only:
      the port is 0 and just its digit is missing. */
  lemma PartialPreamble(e: Endpoint, j: nat)
    requires j <= |Print(e)|
    ensures Parse(Print(e)[..j]) == Some(e) <==> j == |Print(e)| || (e.port == 0 && j == |Print(e)| - 1)
  {
    var host := PrintHost(e);
    HostOf(e);
    if j <= |host| {
      assert Print(e)[..j] == host[..j];
      SplitNowhere(host[..j], COLON);
    } else {
      var m := j - |host| - 1;
      assert Print(e)[..j] == host + [COLON] + Decimal(e.port)[..m];
      SplitAt(host, COLON, Decimal(e.port)[..m]);
      DecimalIsNumeral(e.port);
      if m < |Decimal(e.port)| {
        CutNumeral(e.port, m);
      } else {
        assert Print(e)[..j] == Print(e);
        ParsePrint(e);
      }
    }
  }

  lemma {:induction false} CutIsDecimal(n: nat, m: nat) returns (q: nat)
    requires 1 <= m <= |Decimal(n)|
    ensures Decimal(n)[..m] == Decimal(q)
    ensures if m == |Decimal(n)| then q == n else q <= n / 10
  {
    if m == |Decimal(n)| {
      q := n;
    } else {
      assert Decimal(n)[..m] == Decimal(n / 10)[..m];
      q := CutIsDecimal(n / 10, m);
    }
  }

  /** Wherever a stopped read leads, it is to the right address: to a port with digits missing, and
      as if that port had been printed, or to port 0 for want of any digit. */
  lemma TruncatedPreamble(e: Endpoint, j: nat)
    requires j <= |Print(e)| && Parse(Print(e)[..j]).Some?
    ensures var found := Parse(Print(e)[..j]).value;
            && found == e.(port := found.port)
            && (found.port == e.port || found.port <= e.port / 10)
            && (found.port != 0 ==> Print(e)[..j] == Print(found))
  {
    var host := PrintHost(e);
    HostOf(e);
    if j <= |host| {
      assert Print(e)[..j] == host[..j];
      SplitNowhere(host[..j], COLON);
    } else {
      var m := j - |host| - 1;
      assert Print(e)[..j] == host + [COLON] + Decimal(e.port)[..m];
      SplitAt(host, COLON, Decimal(e.port)[..m]);
      if m > 0 {
        var q := CutIsDecimal(e.port, m);
        DecimalIsNumeral(q);
      }
    }
  }

  // ---------------------------------------------------------------- byte by byte

  /** Four numbers with dots (46) between them, a colon (58), and the port. */
  lemma PrintedBytes(e: Endpoint)
    ensures Print(e) == Decimal(e.a) + [46] + Decimal(e.b) + [46] + Decimal(e.c) + [46] + Decimal(e.d) + [58] +
                        Decimal(e.port)
  {
  }

  /** Digits are 48 to 57, the last one is the number's last, and the others are those of a tenth of it. */
  lemma DecimalBytes(n: nat)
    ensures Decimal(n) == if n < 10 then [48 + n] else Decimal(n / 10) + [48 + n % 10]
  {
  }

  /** "10.244.0.5:80" */
  lemma PrintedExample()
    ensures Print(Endpoint(10, 244, 0, 5, 80)) == [49, 48, 46, 50, 52, 52, 46, 48, 46, 53, 58, 56, 48]
  {
    assert Decimal(10) == [49, 48] && Decimal(80) == [56, 48];
    assert Decimal(24) == [50, 52] && Decimal(244) == [50, 52, 52];
  }

  /** A numeral without a leading zero is the number's own. */
  lemma {:induction false} NumeralIsDecimal(s: seq<byte>)
    requires AllDigits(s) && s != [] && (|s| == 1 || s[0] != ZERO)
    ensures s == Decimal(Value(s))
  {
    var front, last := s[..|s| - 1], s[|s| - 1];
    assert s == front + [last];
    if front == [] {
      assert Value(front) == 0;
    } else {
      NumeralIsDecimal(front);
      PositiveValue(front);
    }
  }

  lemma {:induction false} PositiveValue(s: seq<byte>)
    requires AllDigits(s) && s != [] && s[0] != ZERO
    ensures Value(s) > 0
  {
    if |s| > 1 {
      PositiveValue(s[..|s| - 1]);
    }
  }

  lemma OctetExactly(s: seq<byte>, n: byte)
    ensures ParseOctet(s) == Some(n) <==> s == Decimal(n)
  {
    DecimalIsNumeral(n);
    if ParseOctet(s) == Some(n) {
      NumeralIsDecimal(s);
    }
  }

  lemma {:induction false} SplitExactly(s: seq<byte>, sep: byte, left: seq<byte>, right: seq<byte>)
    ensures Split(s, sep) == Some((left, right)) <==> sep !in left && s == left + [sep] + right
  {
    if sep !in left && s == left + [sep] + right {
      SplitAt(left, sep, right);
    } else if Split(s, sep) == Some((left, right)) {
      SplitSound(s, sep);
    }
  }

  lemma {:induction false} SplitSound(s: seq<byte>, sep: byte)
    requires Split(s, sep).Some?
    ensures var (left, right) := Split(s, sep).value; sep !in left && s == left + [sep] + right
  {
    if s[0] != sep {
      SplitSound(s[1..], sep);
    }
  }

  lemma FieldExactly(s: seq<byte>, n: byte, rest: seq<byte>)
    ensures ParseField(s) == Some((n, rest)) <==> s == Decimal(n) + [DOT] + rest
  {
    if s == Decimal(n) + [DOT] + rest {
      FieldOf(n, rest);
    } else if ParseField(s) == Some((n, rest)) {
      var (left, right) := Split(s, DOT).value;
      SplitSound(s, DOT);
      OctetExactly(left, n);
    }
  }

  lemma HostExactly(s: seq<byte>, e: Endpoint)
    ensures ParseHost(s) == Some((e.a, e.b, e.c, e.d)) <==> s == PrintHost(e)
  {
    HostOf(e);
    if ParseHost(s) == Some((e.a, e.b, e.c, e.d)) {
      var (_, s1) := ParseField(s).value;
      var (_, s2) := ParseField(s1).value;
      var (_, s3) := ParseField(s2).value;
      FieldExactly(s, e.a, s1);
      FieldExactly(s1, e.b, s2);
      FieldExactly(s2, e.c, s3);
      OctetExactly(s3, e.d);
    }
  }

  /** What a dial makes of any string: an address printed canonically, a colon, and digits, of which there
      may be none and with any number of leading zeros, that make the port. */
  lemma ParseExactly(s: seq<byte>, e: Endpoint)
    ensures Parse(s) == Some(e) <==>
            exists port :: s == PrintHost(e) + [COLON] + port && AllDigits(port) && Value(port) == e.port
  {
    HostOf(e);
    if port :| s == PrintHost(e) + [COLON] + port && AllDigits(port) && Value(port) == e.port {
      SplitAt(PrintHost(e), COLON, port);
    }
    if Parse(s) == Some(e) {
      var (host, port) := Split(s, COLON).value;
      SplitSound(s, COLON);
      HostExactly(host, e);
      assert s == PrintHost(e) + [COLON] + port;
    }
  }
}
