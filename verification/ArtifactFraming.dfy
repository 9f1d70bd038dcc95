// The bytes the client-artifact digest is computed over: length-prefixed paths and contents.
module ArtifactFraming {
  import opened Options
  import opened Splitting

  type byte = x: int | 0 <= x < 256

  type Bytes = seq<byte>

  const ZERO: byte := 48
  const COLON: byte := 58

  // A path in UTF-8 and the content of its file.
  datatype Artifact = Artifact(path: Bytes, content: Bytes)

  function Decimal(n: nat): (r: Bytes)
    ensures r != []
  {
    if n < 10 then [ZERO + n] else Decimal(n / 10) + [ZERO + n % 10]
  }

  function Framed(data: Bytes): Bytes {
    Decimal(|data|) + [COLON] + data
  }

  function Encode(artifacts: seq<Artifact>): Bytes {
    if artifacts == [] then []
    else Framed(artifacts[0].path) + Framed(artifacts[0].content) + Encode(artifacts[1..])
  }

  // Feeds the hash one update at a time.
  method FeedDigest(artifacts: seq<Artifact>) returns (fed: Bytes)
    ensures fed == Encode(artifacts)
  {
    fed := [];
    for k := 0 to |artifacts|
      invariant fed + Encode(artifacts[k..]) == Encode(artifacts)
    {
      ghost var before := fed;
      var path, content := artifacts[k].path, artifacts[k].content;
      fed := fed + (Decimal(|path|) + [COLON]);
      fed := fed + path;
      fed := fed + (Decimal(|content|) + [COLON]);
      fed := fed + content;
      FedOne(before, path, content);
      FedSoFar(before, artifacts, k);
    }
    assert fed + Encode(artifacts[|artifacts|..]) == fed;
  }

  // The number that ASCII digits write out.
  ghost function Number(digits: Bytes): int {
    if digits == [] then 0 else 10 * Number(digits[..|digits| - 1]) + (digits[|digits| - 1] - '0' as int)
  }

  ghost predicate WritesOut(digits: Bytes, n: nat) {
    && digits != [] && Number(digits) == n && (forall d :: d in digits ==> '0' as int <= d <= '9' as int)
    && (|digits| > 1 ==> digits[0] != '0' as int)
  }

  lemma {:induction false} DecimalWritesOut(n: nat)
    ensures WritesOut(Decimal(n), n)
  {
    var digits := Decimal(n);
    assert n >= 10 ==> digits[..|digits| - 1] == Decimal(n / 10);
    if n >= 10 {
      DecimalWritesOut(n / 10);
      assert digits[0] == Decimal(n / 10)[0];
      LeadingDigit(n / 10);
    }
  }

  lemma {:induction false} LeadingDigit(n: nat)
    ensures n > 0 ==> Decimal(n)[0] != '0' as int
  {
    if n >= 10 { LeadingDigit(n / 10); }
  }

  // A frame is the length in digits, a colon (3A in ASCII) and the bytes.
  lemma FrameMeans(data: Bytes)
    ensures exists digits :: WritesOut(digits, |data|) && Framed(data) == digits + [0x3A] + data
  {
    DecimalWritesOut(|data|);
  }

  lemma FedOne(before: Bytes, path: Bytes, content: Bytes)
    ensures before + (Decimal(|path|) + [COLON]) + path + (Decimal(|content|) + [COLON]) + content
         == before + (Framed(path) + Framed(content))
  {
    Assoc(before, Decimal(|path|) + [COLON], path);
    Assoc(before + Framed(path), Decimal(|content|) + [COLON], content);
    Assoc(before, Framed(path), Framed(content));
  }

  lemma FedSoFar(before: Bytes, artifacts: seq<Artifact>, k: nat)
    requires k < |artifacts|
    ensures before + (Framed(artifacts[k].path) + Framed(artifacts[k].content)) + Encode(artifacts[k + 1..])
         == before + Encode(artifacts[k..])
  {
    assert artifacts[k..][0] == artifacts[k] && artifacts[k..][1..] == artifacts[k + 1..];
    Assoc(before, Framed(artifacts[k].path) + Framed(artifacts[k].content), Encode(artifacts[k + 1..]));
  }

  // ---- A decoder ----

  predicate IsDigit(b: byte) { ZERO <= b <= 57 }

  function DigitValue(b: byte): nat
    requires IsDigit(b)
  {
    b - ZERO
  }

  ghost predicate AllDigits(digits: Bytes) {
    forall k :: 0 <= k < |digits| ==> IsDigit(digits[k])
  }

  // The number before the first colon and what follows the colon.
  function ReadNumber(s: Bytes, sofar: nat): (r: Option<(nat, Bytes)>)
    ensures r.Some? ==> |r.value.1| < |s|
  {
    if s == [] then None
    else if s[0] == COLON then Some((sofar, s[1..]))
    else if IsDigit(s[0]) then ReadNumber(s[1..], 10 * sofar + DigitValue(s[0]))
    else None
  }

  function ReadFrame(s: Bytes): (r: Option<(Bytes, Bytes)>)
    ensures r.Some? ==> |r.value.1| < |s|
  {
    match ReadNumber(s, 0)
    case None => None
    case Some((n, rest)) => if n <= |rest| then Some((rest[..n], rest[n..])) else None
  }

  function Decode(s: Bytes): Option<seq<Artifact>>
    decreases |s|
  {
    if s == [] then Some([])
    else
      match ReadFrame(s)
      case None => None
      case Some((path, afterPath)) =>
        match ReadFrame(afterPath)
        case None => None
        case Some((content, rest)) =>
          match Decode(rest)
          case None => None
          case Some(artifacts) => Some([Artifact(path, content)] + artifacts)
  }

  ghost function Value(digits: Bytes, sofar: nat): nat
    requires AllDigits(digits)
  {
    if digits == [] then sofar else Value(digits[1..], 10 * sofar + DigitValue(digits[0]))
  }

  lemma {:induction false} ValueSnoc(digits: Bytes, last: byte, sofar: nat)
    requires IsDigit(last) && AllDigits(digits)
    ensures AllDigits(digits + [last])
    ensures Value(digits + [last], sofar) == 10 * Value(digits, sofar) + DigitValue(last)
  {
    if digits == [] {
      assert digits + [last] == [last];
    } else {
      assert (digits + [last])[1..] == digits[1..] + [last];
      ValueSnoc(digits[1..], last, 10 * sofar + DigitValue(digits[0]));
    }
  }

  lemma {:induction false} DecimalValue(n: nat)
    ensures AllDigits(Decimal(n)) && Value(Decimal(n), 0) == n
  {
    if n >= 10 {
      DecimalValue(n / 10);
      ValueSnoc(Decimal(n / 10), ZERO + n % 10, 0);
    }
  }

  lemma {:induction false} NumberRead(digits: Bytes, rest: Bytes, sofar: nat)
    requires AllDigits(digits)
    ensures ReadNumber(digits + [COLON] + rest, sofar) == Some((Value(digits, sofar), rest))
  {
    var s := digits + [COLON] + rest;
    if digits == [] {
      assert s[0] == COLON && s[1..] == rest;
    } else {
      assert s[0] == digits[0] && s[1..] == digits[1..] + [COLON] + rest;
      NumberRead(digits[1..], rest, 10 * sofar + DigitValue(digits[0]));
    }
  }

  lemma FrameRead(data: Bytes, rest: Bytes)
    ensures ReadFrame(Framed(data) + rest) == Some((data, rest))
  {
    DecimalValue(|data|);
    NumberRead(Decimal(|data|), data + rest, 0);
    assert Framed(data) + rest == Decimal(|data|) + [COLON] + (data + rest);
    assert (data + rest)[..|data|] == data && (data + rest)[|data|..] == rest;
  }

  // The framing is uniquely decodable.
  lemma {:induction false} DecodeEncode(artifacts: seq<Artifact>)
    ensures Decode(Encode(artifacts)) == Some(artifacts)
  {
    if artifacts != [] {
      var path, content, rest := artifacts[0].path, artifacts[0].content, Encode(artifacts[1..]);
      DecodeEncode(artifacts[1..]);
      FrameRead(path, Framed(content) + rest);
      FrameRead(content, rest);
      assert Encode(artifacts) == Framed(path) + (Framed(content) + rest);
      assert [Artifact(path, content)] + artifacts[1..] == artifacts;
    }
  }

  // Different artifact lists never feed the hash the same bytes.
  lemma FramingIsInjective(a: seq<Artifact>, b: seq<Artifact>)
    requires Encode(a) == Encode(b)
    ensures a == b
  {
    DecodeEncode(a);
    DecodeEncode(b);
  }
}
