/**
 Request signing: the byte string both ends sign, its unique reading, the signature headers,
 and the verification of one request against the replay window.
 */
module Signing {
  import opened Common
  import opened Text
  import opened Replay

  const NEWLINE: byte := 10
  const SIGNED_PREFIX := "tessera-v1"
  const NONCE_HEX_LEN := 32
  const KEY_HEX_LEN := 64
  const SIG_HEX_LEN := 128
  const HASH_HEX_LEN := 64

  /** What a signature pins; `path` is the UTF-8 request target with its query string. */
  datatype Fields = Fields(httpMethod: Bytes, path: Bytes, ts: int, nonce: string, bodyHash: string)

  ghost predicate Signable(f: Fields) {
    && NEWLINE !in f.httpMethod
    && |f.nonce| == NONCE_HEX_LEN && IsAscii(f.nonce)
    && |f.bodyHash| == HASH_HEX_LEN && IsAscii(f.bodyHash)
  }

  lemma DecimalAscii(n: int)
    ensures IsAscii(Decimal(n)) && NEWLINE !in Ascii(Decimal(n))
  {
    var s := Decimal(n);
    assert forall i :: 0 <= i < |s| ==> s[i] == '-' || IsDigit(s[i]);
  }

  function CanonicalMessage(f: Fields): Bytes
    requires IsAscii(f.nonce) && IsAscii(f.bodyHash)
  {
    DecimalAscii(f.ts);
    Ascii(SIGNED_PREFIX) + [NEWLINE] + f.httpMethod + [NEWLINE] + f.path + [NEWLINE]
    + Ascii(Decimal(f.ts)) + [NEWLINE] + Ascii(f.nonce) + [NEWLINE] + Ascii(f.bodyHash)
  }

  function Join(lines: seq<Bytes>): Bytes {
    if lines == [] then [] else if |lines| == 1 then lines[0] else lines[0] + [NEWLINE] + Join(lines[1..])
  }

  /** The message is six lines: prefix, method, path, decimal timestamp, nonce, hash. */
  lemma CanonicalIsJoined(f: Fields)
    requires IsAscii(f.nonce) && IsAscii(f.bodyHash)
    ensures IsAscii(Decimal(f.ts))
    ensures CanonicalMessage(f) == Join([Ascii("tessera-v1"), f.httpMethod, f.path, Ascii(Decimal(f.ts)), Ascii(f.nonce), Ascii(f.bodyHash)])
  {
    DecimalAscii(f.ts);
    var ts, nonce, bodyHash := Ascii(Decimal(f.ts)), Ascii(f.nonce), Ascii(f.bodyHash);
    SixLines(Ascii(SIGNED_PREFIX), f.httpMethod, f.path, ts, nonce, bodyHash);
  }

  lemma SixLines(a: Bytes, b: Bytes, c: Bytes, d: Bytes, e: Bytes, f: Bytes)
    ensures Join([a, b, c, d, e, f]) == a + [NEWLINE] + b + [NEWLINE] + c + [NEWLINE] + d + [NEWLINE] + e + [NEWLINE] + f
  {
    JoinMore(e, [f]);
    JoinMore(d, [e, f]);
    JoinMore(c, [d, e, f]);
    JoinMore(b, [c, d, e, f]);
    JoinMore(a, [b, c, d, e, f]);
    assert [e] + [f] == [e, f] && [d] + [e, f] == [d, e, f] && [c] + [d, e, f] == [c, d, e, f];
    assert [b] + [c, d, e, f] == [b, c, d, e, f] && [a] + [b, c, d, e, f] == [a, b, c, d, e, f];
    assert Join([f]) == f;
  }

  lemma JoinMore(line: Bytes, rest: seq<Bytes>)
    requires rest != []
    ensures Join([line] + rest) == line + [NEWLINE] + Join(rest)
  {
    assert ([line] + rest)[1..] == rest;
  }

  /** Where the first newline is; the length when there is none. */
  function FirstNewline(b: Bytes): (i: nat)
    ensures i <= |b| && NEWLINE !in b[..i]
    ensures i < |b| ==> b[i] == NEWLINE
  {
    if b == [] || b[0] == NEWLINE then 0
    else
      var i := 1 + FirstNewline(b[1..]);
      assert b[..i] == [b[0]] + b[1..][..i - 1];
      i
  }

  /** One past the last newline; zero when there is none. */
  function AfterLastNewline(b: Bytes): (i: nat)
    ensures i <= |b| && NEWLINE !in b[i..]
    ensures i > 0 ==> b[i - 1] == NEWLINE
  {
    if b == [] || b[|b| - 1] == NEWLINE then |b|
    else
      var i := AfterLastNewline(b[..|b| - 1]);
      assert b[i..] == b[..|b| - 1][i..] + [b[|b| - 1]];
      i
  }

  /** Timestamp, nonce and hash off the end; everything before them is the path. */
  function DecodeTail(httpMethod: Bytes, b: Bytes): Option<Fields> {
    var tail := 1 + NONCE_HEX_LEN + 1 + HASH_HEX_LEN;
    if |b| < tail then None
    else
      var front, end := b[..|b| - tail], b[|b| - tail..];
      var k := AfterLastNewline(front);
      if k == 0 || end[0] != NEWLINE || end[1 + NONCE_HEX_LEN] != NEWLINE then None
      else
        var nonce, bodyHash := FromBytes(end[1..1 + NONCE_HEX_LEN]), FromBytes(end[2 + NONCE_HEX_LEN..]);
        var ts := Undecimal(FromBytes(front[k..]));
        if ts.None? || !IsAscii(nonce) || !IsAscii(bodyHash) then None
        else Some(Fields(httpMethod, front[..k - 1], ts.value, nonce, bodyHash))
  }

  /** The fields a canonical message was built from. */
  function Decode(m: Bytes): Option<Fields> {
    var head := Ascii(SIGNED_PREFIX) + [NEWLINE];
    if !(head <= m) then None
    else
      var rest := m[|head|..];
      var k := FirstNewline(rest);
      if k == |rest| then None else DecodeTail(rest[..k], rest[k + 1..])
  }

  lemma FirstNewlineAt(a: Bytes, b: Bytes)
    requires NEWLINE !in a
    ensures FirstNewline(a + [NEWLINE] + b) == |a|
  {
    var s := a + [NEWLINE] + b;
    var i := FirstNewline(s);
    assert forall k :: 0 <= k < |a| ==> s[k] == a[k] && a[k] in a;
    assert forall k :: 0 <= k < i ==> s[k] == s[..i][k] && s[..i][k] in s[..i];
    assert s[|a|] == NEWLINE;
  }

  /** Only one position can be just past the last newline. */
  lemma LastNewlineUnique(a: Bytes, b: Bytes, i: nat)
    requires NEWLINE !in b
    requires var s := a + [NEWLINE] + b; i <= |s| && NEWLINE !in s[i..] && (i > 0 ==> s[i - 1] == NEWLINE)
    ensures i == |a| + 1
  {
    var s := a + [NEWLINE] + b;
    assert forall k :: |a| < k < |s| ==> s[k] == b[k - |a| - 1];
    assert forall k :: i <= k < |s| ==> s[k] == s[i..][k - i];
    assert s[|a|] == NEWLINE;
  }

  lemma AfterLastNewlineAt(a: Bytes, b: Bytes)
    requires NEWLINE !in b
    ensures AfterLastNewline(a + [NEWLINE] + b) == |a| + 1
  {
    LastNewlineUnique(a, b, AfterLastNewline(a + [NEWLINE] + b));
  }

  lemma AsciiBack(s: string)
    requires IsAscii(s)
    ensures FromBytes(Ascii(s)) == s
  {
  }

  lemma BytesBack(b: Bytes)
    requires IsAscii(FromBytes(b))
    ensures Ascii(FromBytes(b)) == b
  {
  }

  function TailOf(f: Fields): Bytes
    requires IsAscii(f.nonce) && IsAscii(f.bodyHash)
  {
    [NEWLINE] + Ascii(f.nonce) + [NEWLINE] + Ascii(f.bodyHash)
  }

  function FrontOf(f: Fields): Bytes {
    DecimalAscii(f.ts);
    f.path + [NEWLINE] + Ascii(Decimal(f.ts))
  }

  lemma Regroup(a: Bytes, b: Bytes, c: Bytes, d: Bytes, e: Bytes, f: Bytes)
    ensures a + [NEWLINE] + b + [NEWLINE] + c + [NEWLINE] + d + [NEWLINE] + e + [NEWLINE] + f
         == a + [NEWLINE] + (b + [NEWLINE] + ((c + [NEWLINE] + d) + ([NEWLINE] + e + [NEWLINE] + f)))
  {
    var tail := [NEWLINE] + e + [NEWLINE] + f;
    var front := c + [NEWLINE] + d;
    assert b + [NEWLINE] + (front + tail) == b + [NEWLINE] + c + [NEWLINE] + d + tail;
  }

  lemma CanonicalShape(f: Fields)
    requires IsAscii(f.nonce) && IsAscii(f.bodyHash)
    ensures CanonicalMessage(f) == Ascii(SIGNED_PREFIX) + [NEWLINE] + (f.httpMethod + [NEWLINE] + (FrontOf(f) + TailOf(f)))
  {
    DecimalAscii(f.ts);
    Regroup(Ascii(SIGNED_PREFIX), f.httpMethod, f.path, Ascii(Decimal(f.ts)), Ascii(f.nonce), Ascii(f.bodyHash));
  }

  lemma DecodeTailOfCanonical(f: Fields)
    requires Signable(f)
    ensures DecodeTail(f.httpMethod, FrontOf(f) + TailOf(f)) == Some(f)
  {
    var front, end := FrontOf(f), TailOf(f);
    var b := front + end;
    DecimalAscii(f.ts);
    assert b[..|b| - |end|] == front && b[|b| - |end|..] == end;
    AfterLastNewlineAt(f.path, Ascii(Decimal(f.ts)));
    assert front[|f.path| + 1..] == Ascii(Decimal(f.ts)) && front[..|f.path|] == f.path;
    assert end[1..1 + NONCE_HEX_LEN] == Ascii(f.nonce) && end[2 + NONCE_HEX_LEN..] == Ascii(f.bodyHash);
    AsciiBack(f.nonce);
    AsciiBack(f.bodyHash);
    AsciiBack(Decimal(f.ts));
    UndecimalIffDecimal(Decimal(f.ts), f.ts);
  }

  /** Reading a canonical message gives back the fields, newlines in the path or not. */
  lemma DecodeOfCanonical(f: Fields)
    requires Signable(f)
    ensures Decode(CanonicalMessage(f)) == Some(f)
  {
    CanonicalShape(f);
    var m, head := CanonicalMessage(f), Ascii(SIGNED_PREFIX) + [NEWLINE];
    var rest := f.httpMethod + [NEWLINE] + (FrontOf(f) + TailOf(f));
    assert m[|head|..] == rest;
    FirstNewlineAt(f.httpMethod, FrontOf(f) + TailOf(f));
    assert rest[..|f.httpMethod|] == f.httpMethod && rest[|f.httpMethod| + 1..] == FrontOf(f) + TailOf(f);
    DecodeTailOfCanonical(f);
  }

  /** The bytes a tail decoding splits are the ones it was given. */
  lemma TailPieces(b: Bytes, tail: nat, k: nat)
    requires tail == 2 + NONCE_HEX_LEN + HASH_HEX_LEN && tail <= |b| && 0 < k <= |b| - tail
    requires b[k - 1] == NEWLINE && b[|b| - tail] == NEWLINE && b[|b| - HASH_HEX_LEN - 1] == NEWLINE
    ensures var front, end := b[..|b| - tail], b[|b| - tail..];
      && front == front[..k - 1] + [NEWLINE] + front[k..]
      && end == [NEWLINE] + end[1..1 + NONCE_HEX_LEN] + [NEWLINE] + end[2 + NONCE_HEX_LEN..]
      && b == front + end
  {
  }

  lemma DecodeTailSound(httpMethod: Bytes, b: Bytes)
    requires DecodeTail(httpMethod, b).Some?
    ensures var f := DecodeTail(httpMethod, b).value;
      && f.httpMethod == httpMethod
      && |f.nonce| == NONCE_HEX_LEN && IsAscii(f.nonce) && |f.bodyHash| == HASH_HEX_LEN && IsAscii(f.bodyHash)
      && b == FrontOf(f) + TailOf(f)
  {
    var f := DecodeTail(httpMethod, b).value;
    var tail := 2 + NONCE_HEX_LEN + HASH_HEX_LEN;
    var front, end := b[..|b| - tail], b[|b| - tail..];
    var k := AfterLastNewline(front);
    TailPieces(b, tail, k);
    UndecimalIffDecimal(FromBytes(front[k..]), f.ts);
    DecimalAscii(f.ts);
    BytesBack(front[k..]);
    BytesBack(end[1..1 + NONCE_HEX_LEN]);
    BytesBack(end[2 + NONCE_HEX_LEN..]);
    assert FrontOf(f) == front;
    assert TailOf(f) == end;
  }

  /** Whatever reads as fields is the canonical message of exactly those fields, and of no others. */
  lemma DecodeIffCanonical(m: Bytes, f: Fields)
    ensures Decode(m) == Some(f) <==> Signable(f) && CanonicalMessage(f) == m
  {
    if Decode(m) == Some(f) {
      DecodeSound(m);
    }
    if Signable(f) && CanonicalMessage(f) == m {
      DecodeOfCanonical(f);
    }
  }

  lemma SplitAtByte(b: Bytes, k: nat)
    requires k < |b|
    ensures b == b[..k] + [b[k]] + b[k + 1..]
  {
  }

  lemma DecodeSound(m: Bytes)
    requires Decode(m).Some?
    ensures Signable(Decode(m).value) && CanonicalMessage(Decode(m).value) == m
  {
    var f := Decode(m).value;
    var head := Ascii(SIGNED_PREFIX) + [NEWLINE];
    var rest := m[|head|..];
    var k := FirstNewline(rest);
    assert m == head + rest;
    SplitAtByte(rest, k);
    DecodeTailSound(rest[..k], rest[k + 1..]);
    CanonicalShape(f);
  }

  /** A newline in the method would make the message ambiguous. */
  lemma NewlineMethodAmbiguous(a: Bytes, b: Bytes, c: Bytes, ts: int, nonce: string, bodyHash: string)
    requires IsAscii(nonce) && IsAscii(bodyHash)
    ensures CanonicalMessage(Fields(a, b + [NEWLINE] + c, ts, nonce, bodyHash))
         == CanonicalMessage(Fields(a + [NEWLINE] + b, c, ts, nonce, bodyHash))
  {
  }

  // ---- headers ------------------------------------------------------------

  const HEADER_KEY := "X-Tessera-Key"
  const HEADER_SIG := "X-Tessera-Sig"
  const HEADER_TS := "X-Tessera-Ts"
  const HEADER_NONCE := "X-Tessera-Nonce"

  datatype SignatureError = SignatureError(status: int, code: string)

  datatype Signed = Signed(key: string, sig: string, ts: int, nonce: string)

  datatype Identity = Identity(key: string, isAdmin: bool)

  predicate ValidSigned(s: Signed) {
    IsLowerHex(s.key, KEY_HEX_LEN) && IsLowerHex(s.sig, SIG_HEX_LEN) && IsLowerHex(s.nonce, NONCE_HEX_LEN)
  }

  function ParseFields(key: string, sig: string, ts: Option<int>, nonce: string): (r: Result<Signed, SignatureError>)
    ensures r.Ok? ==> ValidSigned(r.value) && ts == Some(r.value.ts)
    ensures r.Err? ==> r.error == SignatureError(400, "malformed_signature")
  {
    if ts.None? then Err(SignatureError(400, "malformed_signature"))
    else
      var s := Signed(Strip(key), Strip(sig), ts.value, Strip(nonce));
      if ValidSigned(s) then Ok(s) else Err(SignatureError(400, "malformed_signature"))
  }

  function ParseSignatureHeaders(headers: map<string, string>): (r: Result<Signed, SignatureError>)
    ensures r.Ok? ==> ValidSigned(r.value)
    ensures r.Err? ==> r.error == SignatureError(400, "malformed_signature")
  {
    if HEADER_KEY in headers && HEADER_SIG in headers && HEADER_TS in headers && HEADER_NONCE in headers
    then ParseFields(headers[HEADER_KEY], headers[HEADER_SIG], ParseInt(headers[HEADER_TS]), headers[HEADER_NONCE])
    else Err(SignatureError(400, "malformed_signature"))
  }

  predicate LowerHex(s: string) {
    forall i :: 0 <= i < |s| ==> s[i] in "0123456789abcdef"
  }

  /** The four headers say exactly these fields: white space around them, hex of the right lengths, an integer. */
  predicate Says(headers: map<string, string>, s: Signed): (said: bool)
    ensures said ==> ValidSigned(s)
  {
    SaidIsValid(s);
    && HEADER_KEY in headers && HEADER_SIG in headers && HEADER_TS in headers && HEADER_NONCE in headers
    && Strip(headers[HEADER_KEY]) == s.key && Strip(headers[HEADER_SIG]) == s.sig && Strip(headers[HEADER_NONCE]) == s.nonce
    && ParseInt(headers[HEADER_TS]) == Some(s.ts)
    && |s.key| == 64 && |s.sig| == 128 && |s.nonce| == 32
    && LowerHex(s.key) && LowerHex(s.sig) && LowerHex(s.nonce)
  }

  lemma HexDigits(s: string, n: nat)
    ensures IsLowerHex(s, n) <==> |s| == n && LowerHex(s)
  {
    forall c | IsHexChar(c) || c in "0123456789abcdef"
      ensures IsHexChar(c) && c in "0123456789abcdef"
    {
      HexDigit(c);
    }
  }

  lemma SaidIsValid(s: Signed)
    ensures ValidSigned(s) <==> |s.key| == 64 && |s.sig| == 128 && |s.nonce| == 32 && LowerHex(s.key) && LowerHex(s.sig) && LowerHex(s.nonce)
  {
    HexDigits(s.key, KEY_HEX_LEN);
    HexDigits(s.sig, SIG_HEX_LEN);
    HexDigits(s.nonce, NONCE_HEX_LEN);
  }

  /** Headers parse as the fields they say, and only those that say some parse. */
  lemma ParsesIffSays(headers: map<string, string>, s: Signed)
    ensures ParseSignatureHeaders(headers) == Ok(s) <==> Says(headers, s)
    ensures ParseSignatureHeaders(headers).Err? <==> forall t :: !Says(headers, t)
  {
    SaidIsValid(s);
    if ParseSignatureHeaders(headers).Ok? {
      SaidIsValid(ParseSignatureHeaders(headers).value);
      assert Says(headers, ParseSignatureHeaders(headers).value);
    }
  }

  lemma OnlyOneSaid(headers: map<string, string>, s: Signed)
    requires Says(headers, s)
    ensures forall t :: Says(headers, t) ==> t == s
  {
  }

  lemma NothingSaid(headers: map<string, string>)
    requires ParseSignatureHeaders(headers).Err?
    ensures forall t :: !Says(headers, t)
  {
    forall t
      ensures !Says(headers, t)
    {
      ParsesIffSays(headers, t);
    }
  }

  lemma HexStripped(s: string, n: nat)
    requires IsLowerHex(s, n)
    ensures Strip(s) == s
  {
    if s != [] {
      assert IsHexChar(s[0]) && IsHexChar(s[|s| - 1]);
    }
    StripTrimmed(s);
  }

  lemma ParseOfHexFields(s: Signed)
    requires ValidSigned(s)
    ensures ParseFields(s.key, s.sig, Some(s.ts), s.nonce) == Ok(s)
  {
    HexStripped(s.key, KEY_HEX_LEN);
    HexStripped(s.sig, SIG_HEX_LEN);
    HexStripped(s.nonce, NONCE_HEX_LEN);
  }

  /** Header values printed from hex fields are accepted and give back exactly those fields. */
  lemma ParseOfPrinted(s: Signed)
    requires ValidSigned(s) && |Digits(Abs(s.ts))| <= MAX_INT_DIGITS
    ensures ParseFields(s.key, s.sig, ParseInt(Decimal(s.ts)), s.nonce) == Ok(s)
  {
    ParseIntOfDecimal(s.ts);
    ParseOfHexFields(s);
  }

  // ---- verification -------------------------------------------------------

  /** Hash (as hex) and signature check of the crypto library, under the fixed context. */
  datatype Crypto = Crypto(hash: Bytes -> string, verify: (string, Bytes, string) -> bool)

  datatype Policy = Policy(window: int, adminKeys: set<string>)

  datatype Request = Request(httpMethod: Bytes, target: Bytes, headers: map<string, string>, body: Bytes)

  ghost predicate HashIsHex(crypto: Crypto) {
    forall b :: IsLowerHex(crypto.hash(b), HASH_HEX_LEN)
  }

  function FieldsOf(crypto: Crypto, req: Request, s: Signed): Fields {
    Fields(req.httpMethod, req.target, s.ts, s.nonce, crypto.hash(req.body))
  }

  lemma HexAscii(s: string, n: nat)
    requires IsLowerHex(s, n)
    ensures IsAscii(s)
  {
    assert forall c: char :: IsHexChar(c) ==> c as int < 128;
  }

  function MessageOf(crypto: Crypto, req: Request, s: Signed): Bytes
    requires HashIsHex(crypto) && IsLowerHex(s.nonce, NONCE_HEX_LEN)
  {
    HexAscii(s.nonce, NONCE_HEX_LEN);
    HexAscii(crypto.hash(req.body), HASH_HEX_LEN);
    CanonicalMessage(FieldsOf(crypto, req, s))
  }

  /** What the replay window sees of a request whose headers parse. */
  ghost function AttemptOf(crypto: Crypto, req: Request, s: Signed, now: int): Attempt
    requires HashIsHex(crypto) && IsLowerHex(s.nonce, NONCE_HEX_LEN)
  {
    Attempt((s.key, s.nonce), s.ts, crypto.verify(s.sig, MessageOf(crypto, req, s), s.key), now)
  }

  function ErrorOf(o: Outcome): SignatureError
    requires o != Accepted
  {
    match o
    case Stale => SignatureError(401, "stale_timestamp")
    case BadSignature => SignatureError(401, "bad_signature")
    case Replayed => SignatureError(409, "replayed")
  }

  function Verdict(cfg: Policy, s: Signed, o: Outcome): Result<Identity, SignatureError> {
    if o == Accepted then Ok(Identity(s.key, s.key in cfg.adminKeys)) else Err(ErrorOf(o))
  }

  /** The checks after the headers have parsed: timestamp, signature, and only then the nonce is recorded. */
  method CheckSigned(crypto: Crypto, cfg: Policy, req: Request, s: Signed, now: int, replay: ReplayWindow)
    returns (r: Result<Identity, SignatureError>)
    requires HashIsHex(crypto) && ValidSigned(s)
    modifies replay
    ensures var (t, o) := Arrive(cfg.window, old(replay.nonces), AttemptOf(crypto, req, s, now));
      replay.nonces == t && r == Verdict(cfg, s, o)
    ensures r == if Abs(now - s.ts) > cfg.window then Err(SignatureError(401, "stale_timestamp"))
      else if !crypto.verify(s.sig, MessageOf(crypto, req, s), s.key) then Err(SignatureError(401, "bad_signature"))
      else if (s.key, s.nonce) in old(replay.nonces) && old(replay.nonces)[(s.key, s.nonce)] > now then Err(SignatureError(409, "replayed"))
      else Ok(Identity(s.key, s.key in cfg.adminKeys))
    ensures Abs(now - s.ts) > cfg.window || !crypto.verify(s.sig, MessageOf(crypto, req, s), s.key) ==> replay.nonces == old(replay.nonces)
    ensures r.Ok? ==> (s.key, s.nonce) in replay.nonces && replay.nonces[(s.key, s.nonce)] == now + cfg.window
  {
    if Abs(now - s.ts) > cfg.window {
      return Err(SignatureError(401, "stale_timestamp"));
    }
    var message := MessageOf(crypto, req, s);
    if !crypto.verify(s.sig, message, s.key) {
      return Err(SignatureError(401, "bad_signature"));
    }
    var isFresh := replay.CheckAndRecord(s.key, s.nonce, now, cfg.window);
    if !isFresh {
      return Err(SignatureError(409, "replayed"));
    }
    return Ok(Identity(s.key, s.key in cfg.adminKeys));
  }

  /**
   Verifies one request. A request whose headers parse meets the replay window exactly as
   one arrival of `Replay.Arrive`; any other leaves the table alone.
   */
  method VerifySignedRequest(crypto: Crypto, cfg: Policy, req: Request, now: int, replay: ReplayWindow)
    returns (r: Result<Identity, SignatureError>)
    requires HashIsHex(crypto)
    modifies replay
    ensures match ParseSignatureHeaders(req.headers)
      case Err(e) => r == Err(e) && replay.nonces == old(replay.nonces)
      case Ok(s) =>
        var (t, o) := Arrive(cfg.window, old(replay.nonces), AttemptOf(crypto, req, s, now));
        replay.nonces == t && r == Verdict(cfg, s, o)
    ensures forall s :: Says(req.headers, s) ==>
      r == if Abs(now - s.ts) > cfg.window then Err(SignatureError(401, "stale_timestamp"))
      else if !crypto.verify(s.sig, MessageOf(crypto, req, s), s.key) then Err(SignatureError(401, "bad_signature"))
      else if (s.key, s.nonce) in old(replay.nonces) && old(replay.nonces)[(s.key, s.nonce)] > now then Err(SignatureError(409, "replayed"))
      else Ok(Identity(s.key, s.key in cfg.adminKeys))
    ensures (forall s :: !Says(req.headers, s)) ==> r == Err(SignatureError(400, "malformed_signature")) && replay.nonces == old(replay.nonces)
  {
    var parsed := ParseSignatureHeaders(req.headers);
    if parsed.Err? {
      NothingSaid(req.headers);
      return Err(parsed.error);
    }
    ParsesIffSays(req.headers, parsed.value);
    OnlyOneSaid(req.headers, parsed.value);
    r := CheckSigned(crypto, cfg, req, parsed.value, now, replay);
  }

  /** The answer to a request whose headers say `s`: stale before bad, bad before replayed. */
  lemma VerdictIs(crypto: Crypto, cfg: Policy, req: Request, s: Signed, now: int, t: Table)
    requires HashIsHex(crypto) && IsLowerHex(s.nonce, NONCE_HEX_LEN)
    ensures Verdict(cfg, s, Arrive(cfg.window, t, AttemptOf(crypto, req, s, now)).1) ==
      if Abs(now - s.ts) > cfg.window then Err(SignatureError(401, "stale_timestamp"))
      else if !crypto.verify(s.sig, MessageOf(crypto, req, s), s.key) then Err(SignatureError(401, "bad_signature"))
      else if (s.key, s.nonce) in t && t[(s.key, s.nonce)] > now then Err(SignatureError(409, "replayed"))
      else Ok(Identity(s.key, s.key in cfg.adminKeys))
  {
  }

  /** One message a key's holder has signed: the five fields, with the body itself. */
  datatype SignedMessage = SignedMessage(key: string, httpMethod: Bytes, path: Bytes, ts: int, nonce: string, body: Bytes)

  function MessageFields(crypto: Crypto, m: SignedMessage): Fields {
    Fields(m.httpMethod, m.path, m.ts, m.nonce, crypto.hash(m.body))
  }

  /** No signature verifies except on a canonical message its key's holder has signed. */
  ghost predicate Unforgeable(crypto: Crypto, signed: set<SignedMessage>) {
    forall sig, message, key :: crypto.verify(sig, message, key) ==>
      exists m :: m in signed && m.key == key && Signable(MessageFields(crypto, m)) && CanonicalMessage(MessageFields(crypto, m)) == message
  }

  /** `m` names this method, target, timestamp and nonce, and a body that hashes like `body`. */
  predicate Covers(crypto: Crypto, m: SignedMessage, key: string, httpMethod: Bytes, target: Bytes, ts: int, nonce: string, body: Bytes) {
    && m.key == key && m.httpMethod == httpMethod && m.path == target && m.ts == ts && m.nonce == nonce
    && crypto.hash(m.body) == crypto.hash(body)
  }

  /** An authentic request carries exactly the method, target, timestamp, nonce and body hash its key's holder signed. */
  lemma AuthenticIsAsSigned(crypto: Crypto, signed: set<SignedMessage>, req: Request, s: Signed, now: int)
    requires HashIsHex(crypto) && Unforgeable(crypto, signed)
    requires NEWLINE !in req.httpMethod && IsLowerHex(s.nonce, NONCE_HEX_LEN)
    requires AttemptOf(crypto, req, s, now).authentic
    ensures exists m :: m in signed && Covers(crypto, m, s.key, req.httpMethod, req.target, s.ts, s.nonce, req.body)
  {
    var f := FieldsOf(crypto, req, s);
    var message := MessageOf(crypto, req, s);
    HexAscii(s.nonce, NONCE_HEX_LEN);
    HexAscii(crypto.hash(req.body), HASH_HEX_LEN);
    assert crypto.verify(s.sig, message, s.key);
    var m :| m in signed && m.key == s.key && Signable(MessageFields(crypto, m)) && CanonicalMessage(MessageFields(crypto, m)) == message;
    DecodeOfCanonical(f);
    DecodeOfCanonical(MessageFields(crypto, m));
    assert Covers(crypto, m, s.key, req.httpMethod, req.target, s.ts, s.nonce, req.body);
  }

  /** And the very body, when it hashes like no other body that was signed. */
  lemma BodyIsAsSigned(crypto: Crypto, signed: set<SignedMessage>, req: Request, s: Signed, now: int)
    requires HashIsHex(crypto) && Unforgeable(crypto, signed)
    requires NEWLINE !in req.httpMethod && IsLowerHex(s.nonce, NONCE_HEX_LEN)
    requires AttemptOf(crypto, req, s, now).authentic
    requires forall m :: m in signed && crypto.hash(m.body) == crypto.hash(req.body) ==> m.body == req.body
    ensures SignedMessage(s.key, req.httpMethod, req.target, s.ts, s.nonce, req.body) in signed
  {
    AuthenticIsAsSigned(crypto, signed, req, s, now);
    var m :| m in signed && Covers(crypto, m, s.key, req.httpMethod, req.target, s.ts, s.nonce, req.body);
    assert m == SignedMessage(s.key, req.httpMethod, req.target, s.ts, s.nonce, req.body);
  }

  /**
   Those hypotheses can be met: for any set of signed messages with `hash` as their hash, the
   signature check that accepts exactly their canonical messages.
   */
  lemma UnforgeableIsPossible(hash: Bytes -> string, signed: set<SignedMessage>) returns (crypto: Crypto)
    ensures crypto.hash == hash && Unforgeable(crypto, signed)
    ensures forall m :: m in signed && Signable(MessageFields(crypto, m)) ==> crypto.verify("", CanonicalMessage(MessageFields(crypto, m)), m.key)
  {
    var idle := Crypto(hash, (_, _, _) => false);
    var accepted := set m | m in signed && Signable(MessageFields(idle, m)) :: (CanonicalMessage(MessageFields(idle, m)), m.key);
    crypto := Crypto(hash, (_, message, key) => (message, key) in accepted);
  }
}
