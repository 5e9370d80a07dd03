/**
 The upload envelope: a printer and a parser that invert each other, the one way to cut an
 accepted body, and what cleaning a title keeps.
 */
module Envelope {
  import opened Common
  import opened Text
  import opened ByteOrder

  const MAGIC: Bytes := [84, 83, 85, 49]  // "TSU1"
  const HEADER_BYTES := 16
  const MAX_META_BYTES := 4096
  const MAX_TITLE_CHARS := 64

  datatype Json = Object(fields: map<string, Json>) | List(items: seq<Json>) | Str(s: string) | Scalar(n: int)

  /** The value read, bytes that are not UTF-8 JSON, or an error of the reader's own, as on deep nesting. */
  datatype Decoding = Decoded(value: Json) | NotJson | GivesUp

  datatype Codec = Codec(encode: Json -> Bytes, decode: Bytes -> Decoding)

  ghost predicate DecodesItsOwn(c: Codec) {
    forall j :: c.decode(c.encode(j)) == Decoded(j)
  }

  datatype Limits = Limits(maxModel: int, maxThumb: int)

  datatype UploadEnvelope = UploadEnvelope(title: string, kind: string, model: Bytes, thumb: Bytes)

  datatype Reason =
    | ShortHeader | BadMagic | MetaTooLong | ModelTooLong | ThumbTooLong | LengthMismatch
    | BadJson | NotObject | BadKind | EmptyModel | EmptyThumb
    | TitleNotText | TitleControl | TitleEmpty

  /** `Malformed` is answered with a 400; `Unhandled` is an exception the handler does not expect. */
  datatype Failure = Malformed(reason: Reason) | Unhandled

  /** `None` when the metadata has no title. */
  function CleanTitle(raw: Option<Json>): Result<string, Failure> {
    if raw.None? || !raw.value.Str? then Err(Malformed(TitleNotText))
    else if HasControl(raw.value.s) then Err(Malformed(TitleControl))
    else
      var title := Strip(raw.value.s);
      if title == "" then Err(Malformed(TitleEmpty)) else Ok(Truncate(title, MAX_TITLE_CHARS))
  }

  predicate ValidKind(kind: string) {
    kind == "pixel" || kind == "model"
  }

  function Get(fields: map<string, Json>, name: string): Option<Json> {
    if name in fields then Some(fields[name]) else None
  }

  /** Looking a list or an object up in a set is an error of its own: it has no hash. */
  function KindOf(fields: map<string, Json>): Result<string, Failure> {
    match Get(fields, "kind")
    case Some(Str(kind)) => if ValidKind(kind) then Ok(kind) else Err(Malformed(BadKind))
    case Some(List(_)) => Err(Unhandled)
    case Some(Object(_)) => Err(Unhandled)
    case _ => Err(Malformed(BadKind))
  }

  /** The metadata's part of the answer, once the byte ranges are cut. */
  function Finish(c: Codec, meta: Bytes, model: Bytes, thumb: Bytes): Result<UploadEnvelope, Failure> {
    match c.decode(meta)
    case NotJson => Err(Malformed(BadJson))
    case GivesUp => Err(Unhandled)
    case Decoded(j) =>
      if !j.Object? then Err(Malformed(NotObject))
      else
        match KindOf(j.fields)
        case Err(e) => Err(e)
        case Ok(kind) =>
          if model == [] then Err(Malformed(EmptyModel))
          else if thumb == [] then Err(Malformed(EmptyThumb))
          else
            match CleanTitle(Get(j.fields, "title"))
            case Err(e) => Err(e)
            case Ok(title) => Ok(UploadEnvelope(title, kind, model, thumb))
  }

  function LengthAt(body: Bytes, at: nat): nat
    requires at + 4 <= |body|
  {
    FromLittle(body[at..at + 4])
  }

  function ParseUpload(limits: Limits, c: Codec, body: Bytes): Result<UploadEnvelope, Failure> {
    if |body| < HEADER_BYTES then Err(Malformed(ShortHeader))
    else if body[0..4] != MAGIC then Err(Malformed(BadMagic))
    else
      var metaLen, modelLen, thumbLen := LengthAt(body, 4), LengthAt(body, 8), LengthAt(body, 12);
      if metaLen > MAX_META_BYTES then Err(Malformed(MetaTooLong))
      else if modelLen > limits.maxModel then Err(Malformed(ModelTooLong))
      else if thumbLen > limits.maxThumb then Err(Malformed(ThumbTooLong))
      else if |body| != HEADER_BYTES + metaLen + modelLen + thumbLen then Err(Malformed(LengthMismatch))
      else
        var modelStart := HEADER_BYTES + metaLen;
        var thumbStart := modelStart + modelLen;
        Finish(c, body[HEADER_BYTES..modelStart], body[modelStart..thumbStart], body[thumbStart..])
  }

  function MetaOf(title: string, kind: string): Json {
    Object(map["title" := Str(title), "kind" := Str(kind)])
  }

  function Header(meta: nat, model: nat, thumb: nat): (b: Bytes)
    ensures |b| == HEADER_BYTES
  {
    MAGIC + Little(meta, 4) + Little(model, 4) + Little(thumb, 4)
  }

  /** Magic, three lengths, and the three ranges they announce. */
  function Frame(meta: Bytes, model: Bytes, thumb: Bytes): Bytes {
    Header(|meta|, |model|, |thumb|) + meta + model + thumb
  }

  /** Lengths that fit their four bytes. */
  predicate Frameable(meta: Bytes, model: Bytes, thumb: Bytes) {
    |meta| < 0x1_0000_0000 && |model| < 0x1_0000_0000 && |thumb| < 0x1_0000_0000
  }

  /** `None` when a length does not fit. */
  function BuildUpload(c: Codec, title: string, kind: string, model: Bytes, thumb: Bytes): Option<Bytes> {
    var meta := c.encode(MetaOf(title, kind));
    if Frameable(meta, model, thumb) then Some(Frame(meta, model, thumb)) else None
  }

  predicate WithinLimits(limits: Limits, meta: Bytes, model: Bytes, thumb: Bytes) {
    |meta| <= MAX_META_BYTES && |model| <= limits.maxModel && |thumb| <= limits.maxThumb
  }

  lemma FourBytes()
    ensures Power256(4) == 0x1_0000_0000
  {
    assert Power256(1) == 256 && Power256(2) == 0x1_0000 && Power256(3) == 0x100_0000;
  }

  /** The header announces exactly the lengths it was made from. */
  lemma HeaderLengths(meta: nat, model: nat, thumb: nat, rest: Bytes)
    requires meta < 0x1_0000_0000 && model < 0x1_0000_0000 && thumb < 0x1_0000_0000
    ensures var b := Header(meta, model, thumb) + rest;
      b[0..4] == MAGIC && LengthAt(b, 4) == meta && LengthAt(b, 8) == model && LengthAt(b, 12) == thumb
  {
    var b := Header(meta, model, thumb) + rest;
    FourBytes();
    FromOfLittle(meta, 4);
    FromOfLittle(model, 4);
    FromOfLittle(thumb, 4);
    assert b[0..4] == MAGIC;
    assert b[4..8] == Little(meta, 4);
    assert b[8..12] == Little(model, 4);
    assert b[12..16] == Little(thumb, 4);
  }

  lemma FrameParts(meta: Bytes, model: Bytes, thumb: Bytes)
    ensures var b, m, t := Frame(meta, model, thumb), HEADER_BYTES + |meta|, HEADER_BYTES + |meta| + |model|;
      && |b| == t + |thumb|
      && b[HEADER_BYTES..m] == meta && b[m..t] == model && b[t..] == thumb
      && b == Header(|meta|, |model|, |thumb|) + (meta + model + thumb)
  {
  }

  /** A framed body is parsed as its three ranges, within the limits. */
  lemma ParseOfFrame(limits: Limits, c: Codec, meta: Bytes, model: Bytes, thumb: Bytes)
    requires Frameable(meta, model, thumb) && WithinLimits(limits, meta, model, thumb)
    ensures ParseUpload(limits, c, Frame(meta, model, thumb)) == Finish(c, meta, model, thumb)
  {
    FrameParts(meta, model, thumb);
    HeaderLengths(|meta|, |model|, |thumb|, meta + model + thumb);
  }

  lemma TooLongRefused(limits: Limits, c: Codec, meta: Bytes, model: Bytes, thumb: Bytes)
    requires Frameable(meta, model, thumb) && !WithinLimits(limits, meta, model, thumb)
    ensures ParseUpload(limits, c, Frame(meta, model, thumb)).Err?
  {
    FrameParts(meta, model, thumb);
    HeaderLengths(|meta|, |model|, |thumb|, meta + model + thumb);
  }

  lemma FourFours(b: Bytes)
    requires |b| >= 16
    ensures b[..16] == b[0..4] + b[4..8] + b[8..12] + b[12..16]
  {
  }

  /** The lengths read from a header are the ones it would be made from. */
  lemma HeaderOfLengths(body: Bytes)
    requires |body| >= HEADER_BYTES && body[0..4] == MAGIC
    ensures LengthAt(body, 4) < 0x1_0000_0000 && LengthAt(body, 8) < 0x1_0000_0000 && LengthAt(body, 12) < 0x1_0000_0000
    ensures body[..HEADER_BYTES] == Header(LengthAt(body, 4), LengthAt(body, 8), LengthAt(body, 12))
  {
    FourBytes();
    LittleOfFrom(body[4..8]);
    LittleOfFrom(body[8..12]);
    LittleOfFrom(body[12..16]);
    FourFours(body);
  }

  lemma CutInFour(b: Bytes, i: nat, j: nat, k: nat)
    requires i <= j <= k <= |b|
    ensures b == b[..i] + b[i..j] + b[j..k] + b[k..]
  {
  }

  /** Every body that passes the length checks is the frame of its three ranges. */
  lemma LengthsFrame(body: Bytes, m: nat, t: nat)
    requires |body| >= HEADER_BYTES && body[0..4] == MAGIC
    requires m == HEADER_BYTES + LengthAt(body, 4) && t == m + LengthAt(body, 8) && |body| == t + LengthAt(body, 12)
    ensures Frameable(body[HEADER_BYTES..m], body[m..t], body[t..])
    ensures body == Frame(body[HEADER_BYTES..m], body[m..t], body[t..])
  {
    HeaderOfLengths(body);
    CutInFour(body, HEADER_BYTES, m, t);
    var meta, model, thumb := body[HEADER_BYTES..m], body[m..t], body[t..];
    assert |meta| == LengthAt(body, 4) && |model| == LengthAt(body, 8) && |thumb| == LengthAt(body, 12);
  }

  /** A body can be cut in one way only. */
  lemma FramingUnique(meta: Bytes, model: Bytes, thumb: Bytes, meta': Bytes, model': Bytes, thumb': Bytes)
    requires Frameable(meta, model, thumb) && Frameable(meta', model', thumb')
    requires Frame(meta, model, thumb) == Frame(meta', model', thumb')
    ensures meta == meta' && model == model' && thumb == thumb'
  {
    FrameParts(meta, model, thumb);
    FrameParts(meta', model', thumb');
    HeaderLengths(|meta|, |model|, |thumb|, meta + model + thumb);
    HeaderLengths(|meta'|, |model'|, |thumb'|, meta' + model' + thumb');
  }

  /** The metadata says this title and kind. */
  predicate Describes(c: Codec, meta: Bytes, title: string, kind: string) {
    match c.decode(meta)
    case Decoded(Object(fields)) => Get(fields, "kind") == Some(Str(kind)) && kind in {"pixel", "model"} && CleanTitle(Get(fields, "title")) == Ok(title)
    case _ => false
  }

  predicate AcceptedAs(limits: Limits, c: Codec, body: Bytes, meta: Bytes, e: UploadEnvelope) {
    && Frameable(meta, e.model, e.thumb)
    && body == Frame(meta, e.model, e.thumb)
    && WithinLimits(limits, meta, e.model, e.thumb)
    && e.model != [] && e.thumb != []
    && Describes(c, meta, e.title, e.kind)
  }

  lemma AcceptedIsFramed(limits: Limits, c: Codec, body: Bytes, e: UploadEnvelope)
    requires ParseUpload(limits, c, body) == Ok(e)
    ensures exists meta :: AcceptedAs(limits, c, body, meta, e)
  {
    var m := HEADER_BYTES + LengthAt(body, 4);
    var t := m + LengthAt(body, 8);
    LengthsFrame(body, m, t);
    var meta := body[HEADER_BYTES..m];
    assert Finish(c, meta, body[m..t], body[t..]) == Ok(e);
    assert Describes(c, meta, e.title, e.kind);
    assert AcceptedAs(limits, c, body, meta, e);
  }

  /**
   Exactly which bodies are accepted, and as what: a frame within the limits whose metadata says
   the title and kind, its model and thumbnail not empty and handed on byte for byte.
   */
  lemma AcceptedIffFramed(limits: Limits, c: Codec, body: Bytes, e: UploadEnvelope)
    ensures ParseUpload(limits, c, body) == Ok(e) <==> exists meta :: AcceptedAs(limits, c, body, meta, e)
  {
    if ParseUpload(limits, c, body) == Ok(e) {
      AcceptedIsFramed(limits, c, body, e);
    }
    if meta :| AcceptedAs(limits, c, body, meta, e) {
      ParseOfFrame(limits, c, meta, e.model, e.thumb);
    }
  }

  /** Parsing what was built gives back the cleaned title and everything else, exactly when it is allowed. */
  lemma ParseOfBuilt(limits: Limits, c: Codec, title: string, kind: string, model: Bytes, thumb: Bytes, e: UploadEnvelope)
    requires DecodesItsOwn(c) && BuildUpload(c, title, kind, model, thumb).Some?
    ensures ParseUpload(limits, c, BuildUpload(c, title, kind, model, thumb).value) == Ok(e) <==>
            && WithinLimits(limits, c.encode(MetaOf(title, kind)), model, thumb)
            && ValidKind(kind) && model != [] && thumb != []
            && CleanTitle(Some(Str(title))) == Ok(e.title) && e == UploadEnvelope(e.title, kind, model, thumb)
  {
    var meta := c.encode(MetaOf(title, kind));
    if WithinLimits(limits, meta, model, thumb) {
      ParseOfFrame(limits, c, meta, model, thumb);
      assert c.decode(meta) == Decoded(MetaOf(title, kind));
    } else {
      TooLongRefused(limits, c, meta, model, thumb);
    }
  }

  /** Metadata the reader gives up on, or whose kind is a list or an object. */
  predicate Unexpected(c: Codec, meta: Bytes) {
    match c.decode(meta)
    case GivesUp => true
    case Decoded(Object(fields)) => "kind" in fields && (fields["kind"].List? || fields["kind"].Object?)
    case _ => false
  }

  predicate FramedWithin(limits: Limits, body: Bytes, meta: Bytes, model: Bytes, thumb: Bytes) {
    Frameable(meta, model, thumb) && WithinLimits(limits, meta, model, thumb) && body == Frame(meta, model, thumb)
  }

  lemma UnhandledIsUnexpected(limits: Limits, c: Codec, body: Bytes)
    requires ParseUpload(limits, c, body) == Err(Unhandled)
    ensures exists meta, model, thumb :: FramedWithin(limits, body, meta, model, thumb) && Unexpected(c, meta)
  {
    var m := HEADER_BYTES + LengthAt(body, 4);
    var t := m + LengthAt(body, 8);
    LengthsFrame(body, m, t);
    assert Finish(c, body[HEADER_BYTES..m], body[m..t], body[t..]) == Err(Unhandled);
    assert FramedWithin(limits, body, body[HEADER_BYTES..m], body[m..t], body[t..]);
  }

  /** The exceptions the handler does not turn into a 400: a framed body the reader gives up on or whose kind is a list or an object. */
  lemma UnhandledIffUnexpected(limits: Limits, c: Codec, body: Bytes)
    ensures ParseUpload(limits, c, body) == Err(Unhandled) <==>
            exists meta, model, thumb :: FramedWithin(limits, body, meta, model, thumb) && Unexpected(c, meta)
  {
    if ParseUpload(limits, c, body) == Err(Unhandled) {
      UnhandledIsUnexpected(limits, c, body);
    }
    if meta, model, thumb :| FramedWithin(limits, body, meta, model, thumb) && Unexpected(c, meta) {
      ParseOfFrame(limits, c, meta, model, thumb);
    }
  }

  /** One such body: `{"kind": []}` with a byte of model and a byte of thumbnail. */
  lemma ListKindIsUnhandled(limits: Limits, c: Codec)
    requires DecodesItsOwn(c) && limits.maxModel >= 1 && limits.maxThumb >= 1
    requires |c.encode(Object(map["kind" := List([])]))| <= MAX_META_BYTES
    ensures ParseUpload(limits, c, Frame(c.encode(Object(map["kind" := List([])])), [0], [0])) == Err(Unhandled)
  {
    var meta := Object(map["kind" := List([])]);
    assert c.decode(c.encode(meta)) == Decoded(meta);
    ParseOfFrame(limits, c, c.encode(meta), [0], [0]);
  }

  // ---- which refusal ----------------------------------------------------------

  /** The four bytes from `at`, least significant first. */
  function Word(body: Bytes, at: nat): nat
    requires at + 4 <= |body|
  {
    body[at] as nat + 0x100 * body[at + 1] as nat + 0x1_0000 * body[at + 2] as nat + 0x100_0000 * body[at + 3] as nat
  }

  lemma LengthIsWord(body: Bytes, at: nat)
    requires at + 4 <= |body|
    ensures LengthAt(body, at) == Word(body, at)
  {
    var b := body[at..at + 4];
    assert b[1..][1..] == b[2..] && b[2..][1..] == b[3..] && b[3..][1..] == [];
    assert FromLittle(b[3..]) == b[3] as nat;
    assert FromLittle(b[2..]) == b[2] as nat + 256 * b[3] as nat;
    assert FromLittle(b[1..]) == b[1] as nat + 256 * FromLittle(b[2..]);
  }

  /** Where the lengths stand, in which order they are looked at, and where the ranges are cut. */
  lemma LengthRefusals(limits: Limits, c: Codec, body: Bytes)
    requires |body| >= 16 && body[..4] == Ascii("TSU1")
    ensures var r, meta, model, thumb := ParseUpload(limits, c, body), Word(body, 4), Word(body, 8), Word(body, 12);
      && (meta > 4096 ==> r == Err(Malformed(MetaTooLong)))
      && (meta <= 4096 && model > limits.maxModel ==> r == Err(Malformed(ModelTooLong)))
      && (meta <= 4096 && model <= limits.maxModel && thumb > limits.maxThumb ==> r == Err(Malformed(ThumbTooLong)))
      && (meta <= 4096 && model <= limits.maxModel && thumb <= limits.maxThumb && |body| != 16 + meta + model + thumb ==>
            r == Err(Malformed(LengthMismatch)))
      && (r.Ok? ==>
            && |body| == 16 + meta + model + thumb
            && r.value.model == body[16 + meta..16 + meta + model] && r.value.thumb == body[16 + meta + model..])
  {
    assert body[..4] == body[0..4] && MAGIC == Ascii("TSU1");
    LengthIsWord(body, 4);
    LengthIsWord(body, 8);
    LengthIsWord(body, 12);
  }

  lemma HeaderRefusals(limits: Limits, c: Codec, body: Bytes)
    ensures |body| < 16 ==> ParseUpload(limits, c, body) == Err(Malformed(ShortHeader))
    ensures |body| >= 16 && body[..4] != Ascii("TSU1") ==> ParseUpload(limits, c, body) == Err(Malformed(BadMagic))
  {
    if |body| >= 16 {
      assert body[..4] == body[0..4];
      assert MAGIC == Ascii("TSU1");
    }
  }

  /** A framed body within the limits, by what its metadata says and what is empty. */
  lemma MetadataRefusals(limits: Limits, c: Codec, meta: Bytes, model: Bytes, thumb: Bytes)
    requires Frameable(meta, model, thumb) && WithinLimits(limits, meta, model, thumb)
    ensures var r, d := ParseUpload(limits, c, Frame(meta, model, thumb)), c.decode(meta);
      && (d == NotJson ==> r == Err(Malformed(BadJson)))
      && (d.Decoded? && !d.value.Object? ==> r == Err(Malformed(NotObject)))
      && (d.Decoded? && d.value.Object? ==>
            var fields := d.value.fields;
            && ("kind" !in fields || fields["kind"].Scalar? || (fields["kind"].Str? && fields["kind"].s !in {"pixel", "model"}) ==>
                  r == Err(Malformed(BadKind)))
            && ("kind" in fields && fields["kind"].Str? && fields["kind"].s in {"pixel", "model"} ==>
                  && (model == [] ==> r == Err(Malformed(EmptyModel)))
                  && (model != [] && thumb == [] ==> r == Err(Malformed(EmptyThumb)))
                  && (model != [] && thumb != [] && ("title" !in fields || !fields["title"].Str?) ==> r == Err(Malformed(TitleNotText)))))
  {
    ParseOfFrame(limits, c, meta, model, thumb);
  }

  /** A title refused, or cleaned. */
  lemma TitleIs(raw: string)
    ensures var r := CleanTitle(Some(Str(raw)));
      && ((exists i :: 0 <= i < |raw| && (raw[i] as int < 32 || raw[i] as int == 127)) <==> r == Err(Malformed(TitleControl)))
      && ((forall i :: 0 <= i < |raw| ==> !(raw[i] as int < 32 || raw[i] as int == 127)) ==>
            && (Strip(raw) == "" ==> r == Err(Malformed(TitleEmpty)))
            && (Strip(raw) != "" ==> r.Ok? && r.value <= Strip(raw) && (|r.value| == |Strip(raw)| <= 64 || |r.value| == 64 < |Strip(raw)|)))
  {
    assert HasControl(raw) <==> exists i :: 0 <= i < |raw| && IsControl(raw[i]);
  }

  // ---- titles ---------------------------------------------------------------

  /** Stripping cuts at both ends only, and leaves no space there. */
  lemma StripKeeps(s: string)
    ensures var r := Strip(s);
      && |r| <= |s| && (forall c :: c in r ==> c in s)
      && (r != [] ==> !IsSpace(r[0]) && !IsSpace(r[|r| - 1]))
  {
    var i, j := StripIs(s);
    assert forall k :: 0 <= k < j - i ==> s[i..j][k] == s[i + k];
  }

  predicate Clean(title: string) {
    1 <= |title| <= MAX_TITLE_CHARS && !HasControl(title) && !IsSpace(title[0])
  }

  /** Every cleaned title is short, printable and does not begin with a space. */
  lemma CleanedIsClean(raw: Option<Json>, title: string)
    requires CleanTitle(raw) == Ok(title)
    ensures Clean(title)
  {
    StripKeeps(raw.value.s);
    var stripped := Strip(raw.value.s);
    forall i | 0 <= i < |title|
      ensures !IsControl(title[i])
    {
      assert title[i] == stripped[i] && stripped[i] in stripped;
      assert title[i] in raw.value.s;
    }
  }

  lemma CleanStripsRight(title: string)
    requires Clean(title)
    ensures CleanTitle(Some(Str(title))) == Ok(StripRight(title)) && StripRight(title) != []
  {
    StripRightNonempty(title);
    var j := StripRightIs(title);
  }

  lemma {:induction false} StripRightNonempty(s: string)
    requires s != [] && !IsSpace(s[0])
    ensures StripRight(s) != []
  {
    if IsSpace(s[|s| - 1]) {
      StripRightNonempty(s[..|s| - 1]);
    }
  }

  /** Cleaning is not idempotent: a cleaned title cleans to itself exactly when the cut left no space at its end. */
  lemma CleanAgainIff(raw: Option<Json>, title: string)
    requires CleanTitle(raw) == Ok(title)
    ensures title != [] && (CleanTitle(Some(Str(title))) == Ok(title) <==> !IsSpace(title[|title| - 1]))
  {
    CleanedIsClean(raw, title);
    CleanStripsRight(title);
  }

  /** That happens only to a title longer than the limit, cut just after a space. */
  lemma CleanAgainIffUncut(raw: Option<Json>, title: string)
    requires CleanTitle(raw) == Ok(title)
    ensures var full := Strip(raw.value.s);
      CleanTitle(Some(Str(title))) == Ok(title) <==> |full| <= MAX_TITLE_CHARS || !IsSpace(full[MAX_TITLE_CHARS - 1])
  {
    CleanAgainIff(raw, title);
    StripKeeps(raw.value.s);
  }

  /** A second cleaning settles it. */
  lemma CleanTwiceSettles(raw: Option<Json>, title: string)
    requires CleanTitle(raw) == Ok(title)
    ensures var twice := CleanTitle(Some(Str(title)));
      twice.Ok? && CleanTitle(Some(Str(twice.value))) == twice
  {
    CleanedIsClean(raw, title);
    CleanStripsRight(title);
    var twice := CleanTitle(Some(Str(title)));
    CleanAgainIff(Some(Str(title)), twice.value);
  }

  function Letters(k: nat): (s: string)
    ensures |s| == k && forall i :: 0 <= i < k ==> s[i] == 'a'
  {
    if k == 0 then "" else Letters(k - 1) + "a"
  }

  /** One such title: 63 letters, a space and a letter are cut after the space, and cleaned again lose it. */
  lemma CutAfterSpaceChanges()
    ensures CleanTitle(Some(Str(Letters(63) + " b"))) == Ok(Letters(63) + " ")
    ensures CleanTitle(Some(Str(Letters(63) + " "))) == Ok(Letters(63))
  {
    var raw, cut, letters := Letters(63) + " b", Letters(63) + " ", Letters(63);
    assert raw[64] == 'b' && raw[0] == 'a' && cut[0] == 'a' && cut[63] == ' ';
    StripTrimmed(raw);
    assert raw[..64] == cut;
    assert forall i :: 0 <= i < |raw| ==> !IsControl(raw[i]);
    CleanStripsRight(cut);
    assert cut[..63] == letters && letters[62] == 'a';
    assert StripRight(cut) == StripRight(letters);
  }
}
