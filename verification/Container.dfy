/** The package container: magic, header length, JSON header, and the archive, plain or sealed. */
module Container {
  import opened Wrappers
  import opened BigEndian

  const MAGIC: Bytes := [0x49, 0x43, 0x50, 0x4B, 0x47, 0x30, 0x30, 0x31] // ICPKG001
  const SALT_BYTES := 16
  const NONCE_BYTES := 12
  const LENGTH_LIMIT: nat := 0x1_0000_0000

  datatype Json =
    | Null
    | Boolean(truth: bool)
    | Number(number: int)
    | Text(text: string)
    | Array(items: seq<Json>)
    | Object(fields: map<string, Json>)

  /** json.loads on bytes: a value, JSONDecodeError, or bytes that do not even decode to text. */
  datatype Parsed = Value(json: Json) | NotJson | NotText

  datatype Opened = Plain(bytes: Bytes) | InvalidTag | BadArguments

  /** The libraries used: JSON, Argon2id (None where it raises) and AES-GCM. Passphrases are their UTF-8 bytes. */
  datatype Libraries<!K> = Libraries(
    dumps: Json -> Bytes, loads: Bytes -> Parsed,
    kdf: (Bytes, Bytes, Json, Json, Json) -> Option<K>,
    seal: (K, Bytes, Bytes) -> Bytes, open: (K, Bytes, Bytes) -> Opened)

  datatype Outcome = Payload(bytes: Bytes) | DecryptionFailed | ContainerError | Uncaught

  const FORMAT := "intracloud-portable-container"
  const TIME_COST := Number(3)
  const MEMORY_COST := Number(262144)
  const PARALLELISM := Number(4)

  // ---------- hexadecimal ----------

  function HexDigit(n: nat): char
    requires n < 16
  {
    "0123456789abcdef"[n]
  }

  function ToHex(b: Bytes): string {
    if b == [] then "" else [HexDigit(b[0] / 16), HexDigit(b[0] % 16)] + ToHex(b[1..])
  }

  function HexValue(c: char): (v: Option<nat>)
    ensures v.Some? ==> v.value < 16
  {
    if '0' <= c <= '9' then Some(c as int - '0' as int)
    else if 'a' <= c <= 'f' then Some(c as int - 'a' as int + 10)
    else if 'A' <= c <= 'F' then Some(c as int - 'A' as int + 10)
    else None
  }

  predicate IsSpace(c: char) {
    c == ' ' || '\t' <= c <= '\r'
  }

  /** bytes.fromhex: pairs of digits of either case, with ASCII white space between pairs. */
  function FromHex(s: string): Option<Bytes> {
    if s == "" then Some([])
    else if IsSpace(s[0]) then FromHex(s[1..])
    else if |s| < 2 || HexValue(s[0]).None? || HexValue(s[1]).None? then None
    else
      var rest := FromHex(s[2..]);
      if rest.None? then None else Some([16 * HexValue(s[0]).value + HexValue(s[1]).value] + rest.value)
  }

  lemma {:induction false} HexRoundTrip(b: Bytes)
    ensures FromHex(ToHex(b)) == Some(b)
  {
    if b != [] {
      HexRoundTrip(b[1..]);
      PairThenRest(b[0], ToHex(b[1..]));
      hide FromHex;
      assert [b[0]] + b[1..] == b;
    }
  }

  lemma {:induction false} PairThenRest(b: Byte, s: string)
    ensures
      var pair := [HexDigit(b / 16), HexDigit(b % 16)];
      FromHex(pair + s) == if FromHex(s).None? then None else Some([b] + FromHex(s).value)
  {
    HexDigitRoundTrip(b / 16);
    HexDigitRoundTrip(b % 16);
    hide HexDigit, HexValue, IsSpace;
    var t := [HexDigit(b / 16), HexDigit(b % 16)] + s;
    assert t[0] == HexDigit(b / 16) && t[1] == HexDigit(b % 16) && t[2..] == s;
  }

  lemma HexDigitRoundTrip(n: nat)
    requires n < 16
    ensures HexValue(HexDigit(n)) == Some(n) && !IsSpace(HexDigit(n))
  {
  }

  /** Digits may be capitals, and white space may stand before a pair. */
  lemma {:induction false} HexLeniencies(n: nat, space: char, s: string)
    requires n < 16 && space in [' ', '\t', '\n', '\r', 11 as char, 12 as char]
    ensures HexValue("0123456789ABCDEF"[n]) == Some(n)
    ensures FromHex([space] + s) == FromHex(s)
  {
    assert ([space] + s)[1..] == s;
  }

  // ---------- writing ----------

  function KdfParams(): Json {
    Object(map["time_cost" := TIME_COST, "memory_cost_kib" := MEMORY_COST, "parallelism" := PARALLELISM])
  }

  function Encryption(salt: Bytes, nonce: Bytes): Json {
    Object(map[
      "algorithm" := Text("AES-256-GCM"), "kdf" := Text("argon2id"), "kdf_params" := KdfParams(),
      "salt" := Text(ToHex(salt)), "nonce" := Text(ToHex(nonce))])
  }

  function Header(encryption: Json): Json {
    Object(map["format" := Text(FORMAT), "encryption" := encryption])
  }

  /** None where the header does not fit its length field. */
  function Frame(header: Bytes, payload: Bytes): Option<Bytes> {
    if |header| < LENGTH_LIMIT then
      FourBytes();
      Some(MAGIC + ToBytes(|header|, 4) + header + payload)
    else None
  }

  /** write_container, with the random salt and nonce as parameters; None where it raises. */
  function Write<K>(lib: Libraries<K>, zip: Bytes, passphrase: Option<Bytes>, salt: Bytes, nonce: Bytes): Option<Bytes> {
    if passphrase.None? then Frame(lib.dumps(Header(Null)), zip)
    else
      var key := lib.kdf(passphrase.value, salt, TIME_COST, MEMORY_COST, PARALLELISM);
      if key.None? then None
      else Frame(lib.dumps(Header(Encryption(salt, nonce))), lib.seal(key.value, nonce, zip))
  }

  lemma FourBytes()
    ensures Power256(4) == LENGTH_LIMIT
  {
  }

  // ---------- reading ----------

  /** data[from:to] with both ends cut off at the length. */
  function Slice(data: Bytes, from: nat, to: nat): Bytes {
    var hi := if to < |data| then to else |data|;
    if from < hi then data[from..hi] else []
  }

  function HeaderLength(data: Bytes): nat {
    FromBytes(Slice(data, 8, 12))
  }

  function ReadHeader<K>(lib: Libraries<K>, data: Bytes): Result<Json, Outcome> {
    if Slice(data, 0, 8) != MAGIC then Failure(ContainerError)
    else match lib.loads(Slice(data, 12, 12 + HeaderLength(data)))
      case Value(json) => Success(json)
      case NotJson => Failure(ContainerError)
      case NotText => Failure(Uncaught)
  }

  function PayloadOf(data: Bytes): Bytes {
    Slice(data, 12 + HeaderLength(data), |data|)
  }

  /** salt, nonce and cost parameters, read in this order: a missing key or bad hexadecimal is caught, a value of
      the wrong JSON type is not. */
  function ReadHexField(fields: map<string, Json>, name: string): Result<Bytes, Outcome> {
    if name !in fields then Failure(ContainerError)
    else if !fields[name].Text? then Failure(Uncaught)
    else
      var b := FromHex(fields[name].text);
      if b.None? then Failure(ContainerError) else Success(b.value)
  }

  function OpenWith<K>(lib: Libraries<K>, salt: Bytes, nonce: Bytes, params: Json, passphrase: Bytes, payload: Bytes): Outcome {
    if !params.Object? || "time_cost" !in params.fields || "memory_cost_kib" !in params.fields
      || "parallelism" !in params.fields
    then Uncaught
    else
      var f := params.fields;
      var key := lib.kdf(passphrase, salt, f["time_cost"], f["memory_cost_kib"], f["parallelism"]);
      if key.None? then Uncaught
      else match lib.open(key.value, nonce, payload)
        case Plain(b) => Payload(b)
        case InvalidTag => DecryptionFailed
        case BadArguments => Uncaught
  }

  function Decrypt<K>(lib: Libraries<K>, encryption: Json, passphrase: Bytes, payload: Bytes): Outcome {
    if !encryption.Object? then Uncaught
    else match ReadHexField(encryption.fields, "salt")
      case Failure(o) => o
      case Success(salt) =>
        match ReadHexField(encryption.fields, "nonce")
        case Failure(o) => o
        case Success(nonce) =>
          if "kdf_params" !in encryption.fields then ContainerError
          else OpenWith(lib, salt, nonce, encryption.fields["kdf_params"], passphrase, payload)
  }

  function ReadPayload<K>(lib: Libraries<K>, data: Bytes, passphrase: Option<Bytes>): Outcome {
    match ReadHeader(lib, data)
    case Failure(o) => o
    case Success(header) =>
      if !header.Object? then Uncaught
      else
        var encryption := if "encryption" in header.fields then header.fields["encryption"] else Null;
        if encryption == Null then Payload(PayloadOf(data))
        else if passphrase.None? then DecryptionFailed
        else Decrypt(lib, encryption, passphrase.value, PayloadOf(data))
  }

  // ---------- the laws assumed of the libraries ----------

  ghost predicate IsWritten(header: Json) {
    header == Header(Null)
    || exists s: Bytes, n: Bytes :: |s| == SALT_BYTES && |n| == NONCE_BYTES && header == Header(Encryption(s, n))
  }

  /** Parsing inverts printing, on the headers that are written. */
  ghost predicate JsonRoundTrips<K(!new)>(lib: Libraries<K>) {
    forall h: Json :: IsWritten(h) ==> lib.loads(lib.dumps(h)) == Value(h)
  }

  /** With the cost parameters and salt length that are written, a key is always derived. */
  ghost predicate KdfDerives<K(!new)>(lib: Libraries<K>) {
    forall p: Bytes, s: Bytes :: |s| == SALT_BYTES ==> lib.kdf(p, s, TIME_COST, MEMORY_COST, PARALLELISM).Some?
  }

  /** Authenticated encryption: whatever opens was sealed under that key and nonce, and with a nonce of the written
      length whatever was sealed opens. */
  ghost predicate AeadIsSound<K(!new)>(lib: Libraries<K>) {
    && (forall k: K, n: Bytes, m: Bytes, c: Bytes :: lib.open(k, n, c) == Plain(m) ==> c == lib.seal(k, n, m))
    && (forall k: K, n: Bytes, m: Bytes :: |n| == NONCE_BYTES ==> lib.open(k, n, lib.seal(k, n, m)) == Plain(m))
    && (forall k: K, n: Bytes, c: Bytes :: |n| == NONCE_BYTES ==> lib.open(k, n, c) != BadArguments)
  }

  ghost predicate Lawful<K(!new)>(lib: Libraries<K>) {
    JsonRoundTrips(lib) && KdfDerives(lib) && AeadIsSound(lib)
  }

  /** No text sealed under the second passphrase's key is this one sealed under the first's: the keys differ, and the
      cipher tells them apart here. Keys and tags being finite, this is about these two passphrases alone. */
  ghost predicate Separates<K(!new)>(
      lib: Libraries<K>, salt: Bytes, nonce: Bytes, zip: Bytes, passphrase: Bytes, other: Bytes)
  {
    var k := lib.kdf(passphrase, salt, TIME_COST, MEMORY_COST, PARALLELISM);
    var l := lib.kdf(other, salt, TIME_COST, MEMORY_COST, PARALLELISM);
    k.Some? && l.Some? && forall m: Bytes :: lib.seal(l.value, nonce, m) != lib.seal(k.value, nonce, zip)
  }

  // ---------- round trips ----------

  /** Header and payload come out of a frame as they went in, whatever their lengths. */
  lemma FrameParts(header: Bytes, payload: Bytes)
    requires Frame(header, payload).Some?
    ensures
      var data := Frame(header, payload).value;
      && Slice(data, 0, 8) == MAGIC
      && HeaderLength(data) == |header|
      && Slice(data, 12, 12 + HeaderLength(data)) == header
      && PayloadOf(data) == payload
  {
    FourBytes();
    NumberRoundTrip(|header|, 4);
    var length := ToBytes(|header|, 4);
    var data := MAGIC + length + header + payload;
    assert data[0..8] == MAGIC;
    assert data[8..12] == length;
    assert data[12..12 + |header|] == header;
    assert data[12 + |header|..] == payload;
  }

  lemma WrittenFieldsRead(salt: Bytes, nonce: Bytes)
    ensures Encryption(salt, nonce).Object?
    ensures ReadHexField(Encryption(salt, nonce).fields, "salt") == Success(salt)
    ensures ReadHexField(Encryption(salt, nonce).fields, "nonce") == Success(nonce)
  {
    HexRoundTrip(salt);
    HexRoundTrip(nonce);
    hide ToHex, FromHex;
  }

  lemma ReadsEncryption<K(!new)>(
      lib: Libraries<K>, salt: Bytes, nonce: Bytes, payload: Bytes, passphrase: Option<Bytes>)
    requires JsonRoundTrips(lib) && |salt| == SALT_BYTES && |nonce| == NONCE_BYTES
    requires Frame(lib.dumps(Header(Encryption(salt, nonce))), payload).Some?
    ensures ReadPayload(lib, Frame(lib.dumps(Header(Encryption(salt, nonce))), payload).value, passphrase)
      == if passphrase.None? then DecryptionFailed
         else OpenWith(lib, salt, nonce, KdfParams(), passphrase.value, payload)
  {
    FrameParts(lib.dumps(Header(Encryption(salt, nonce))), payload);
    WrittenFieldsRead(salt, nonce);
    hide Frame, Slice, HeaderLength, PayloadOf, ReadHexField, OpenWith, ToHex;
  }

  /** Writing fails only over the header's length. A container written without a passphrase reads back with any
      passphrase or none; one written with a passphrase reads back with that one, and fails to decrypt with none. With
      another it fails to decrypt exactly if the two are separated. */
  lemma ContainerRoundTrip<K(!new)>(
      lib: Libraries<K>, zip: Bytes, passphrase: Option<Bytes>, salt: Bytes, nonce: Bytes, given: Option<Bytes>)
    requires Lawful(lib) && |salt| == SALT_BYTES && |nonce| == NONCE_BYTES
    ensures Write(lib, zip, passphrase, salt, nonce).Some?
      <==> |lib.dumps(Header(if passphrase.None? then Null else Encryption(salt, nonce)))| < LENGTH_LIMIT
    ensures Write(lib, zip, passphrase, salt, nonce).Some? ==>
      var read := ReadPayload(lib, Write(lib, zip, passphrase, salt, nonce).value, given);
      && (passphrase.None? || given == passphrase ==> read == Payload(zip))
      && (passphrase.Some? && given.None? ==> read == DecryptionFailed)
      && (passphrase.Some? && given.Some? && given != passphrase ==>
            (read == DecryptionFailed <==> Separates(lib, salt, nonce, zip, passphrase.value, given.value)))
  {
    if Write(lib, zip, passphrase, salt, nonce).None? {
    } else if passphrase.None? {
      FrameParts(lib.dumps(Header(Null)), zip);
      hide Frame, Slice, HeaderLength, PayloadOf;
    } else {
      var key := lib.kdf(passphrase.value, salt, TIME_COST, MEMORY_COST, PARALLELISM).value;
      ReadsEncryption(lib, salt, nonce, lib.seal(key, nonce, zip), given);
      if given.Some? {
        OpensExactly(lib, salt, nonce, passphrase.value, zip, given.value);
      }
      hide Frame, ReadPayload, OpenWith, Separates;
    }
  }

  /** The header as the package format documents it; salt and nonce as hexadecimal text, if it is encrypted. */
  function DocumentedHeader(random: Option<(string, string)>): Json {
    Object(map[
      "format" := Text("intracloud-portable-container"),
      "encryption" := if random.None? then Null else Object(map[
        "algorithm" := Text("AES-256-GCM"), "kdf" := Text("argon2id"),
        "kdf_params" := Object(map[
          "time_cost" := Number(3), "memory_cost_kib" := Number(0x4_0000), "parallelism" := Number(4)]),
        "salt" := Text(random.value.0), "nonce" := Text(random.value.1)])])
  }

  /** The header of a written container reads back as documented, its texts standing for the salt and the nonce. */
  lemma WrittenHeaderReads<K(!new)>(lib: Libraries<K>, zip: Bytes, passphrase: Option<Bytes>, salt: Bytes, nonce: Bytes)
    requires JsonRoundTrips(lib) && |salt| == SALT_BYTES && |nonce| == NONCE_BYTES
    requires Write(lib, zip, passphrase, salt, nonce).Some?
    ensures exists s: string, n: string ::
      && FromHex(s) == Some(salt) && FromHex(n) == Some(nonce)
      && ReadHeader(lib, Write(lib, zip, passphrase, salt, nonce).value)
         == Success(DocumentedHeader(if passphrase.None? then None else Some((s, n))))
  {
    HexRoundTrip(salt);
    HexRoundTrip(nonce);
    HeadersAreDocumented(salt, nonce);
    var header := Header(if passphrase.None? then Null else Encryption(salt, nonce));
    var payload := WrittenIsFramed(lib, zip, passphrase, salt, nonce);
    hide Frame, Write, ReadHeader, ToHex, FromHex, DocumentedHeader, Header, Encryption, IsWritten, JsonRoundTrips;
    HeaderReadsBack(lib, header, payload);
    var s, n := ToHex(salt), ToHex(nonce);
    assert FromHex(s) == Some(salt) && FromHex(n) == Some(nonce);
  }

  lemma WrittenIsFramed<K(!new)>(lib: Libraries<K>, zip: Bytes, passphrase: Option<Bytes>, salt: Bytes, nonce: Bytes)
    returns (payload: Bytes)
    requires |salt| == SALT_BYTES && |nonce| == NONCE_BYTES && Write(lib, zip, passphrase, salt, nonce).Some?
    ensures
      var header := Header(if passphrase.None? then Null else Encryption(salt, nonce));
      IsWritten(header) && Write(lib, zip, passphrase, salt, nonce) == Frame(lib.dumps(header), payload)
  {
    hide Frame, Header, Encryption;
    payload := if passphrase.None? then zip
      else lib.seal(lib.kdf(passphrase.value, salt, TIME_COST, MEMORY_COST, PARALLELISM).value, nonce, zip);
  }

  lemma HeaderReadsBack<K(!new)>(lib: Libraries<K>, header: Json, payload: Bytes)
    requires JsonRoundTrips(lib) && IsWritten(header) && Frame(lib.dumps(header), payload).Some?
    ensures ReadHeader(lib, Frame(lib.dumps(header), payload).value) == Success(header)
  {
    FrameParts(lib.dumps(header), payload);
    hide Frame, Slice, HeaderLength, PayloadOf, IsWritten;
  }

  lemma {:induction false} HeadersAreDocumented(salt: Bytes, nonce: Bytes)
    ensures Header(Null) == DocumentedHeader(None)
    ensures Header(Encryption(salt, nonce)) == DocumentedHeader(Some((ToHex(salt), ToHex(nonce))))
  {
    hide ToHex;
  }

  lemma OpensExactly<K(!new)>(lib: Libraries<K>, salt: Bytes, nonce: Bytes, passphrase: Bytes, zip: Bytes, given: Bytes)
    requires Lawful(lib) && |salt| == SALT_BYTES && |nonce| == NONCE_BYTES
    ensures lib.kdf(passphrase, salt, TIME_COST, MEMORY_COST, PARALLELISM).Some?
    ensures
      var key := lib.kdf(passphrase, salt, TIME_COST, MEMORY_COST, PARALLELISM).value;
      var result := OpenWith(lib, salt, nonce, KdfParams(), given, lib.seal(key, nonce, zip));
      && (given == passphrase ==> result == Payload(zip))
      && (result == DecryptionFailed <==> Separates(lib, salt, nonce, zip, passphrase, given))
  {
    var key := lib.kdf(passphrase, salt, TIME_COST, MEMORY_COST, PARALLELISM).value;
    var other := lib.kdf(given, salt, TIME_COST, MEMORY_COST, PARALLELISM).value;
    var sealed := lib.seal(key, nonce, zip);
    OpenWithWritten(lib, salt, nonce, given, sealed);
    hide OpenWith, KdfParams;
    assert given == passphrase ==> lib.open(other, nonce, sealed) == Plain(zip);
    OpensIfSealed(lib, other, nonce, sealed);
  }

  lemma OpensIfSealed<K(!new)>(lib: Libraries<K>, k: K, nonce: Bytes, c: Bytes)
    requires AeadIsSound(lib) && |nonce| == NONCE_BYTES
    ensures lib.open(k, nonce, c) == InvalidTag <==> forall m: Bytes :: lib.seal(k, nonce, m) != c
    ensures lib.open(k, nonce, c) != BadArguments
  {
    if m: Bytes :| lib.seal(k, nonce, m) == c {
      assert lib.open(k, nonce, lib.seal(k, nonce, m)) == Plain(m);
    }
  }

  /** What a reader does with the written cost parameters. */
  lemma OpenWithWritten<K>(lib: Libraries<K>, salt: Bytes, nonce: Bytes, given: Bytes, payload: Bytes)
    requires lib.kdf(given, salt, TIME_COST, MEMORY_COST, PARALLELISM).Some?
    ensures
      var result := lib.open(lib.kdf(given, salt, TIME_COST, MEMORY_COST, PARALLELISM).value, nonce, payload);
      OpenWith(lib, salt, nonce, KdfParams(), given, payload)
      == if result.Plain? then Payload(result.bytes) else if result.InvalidTag? then DecryptionFailed else Uncaught
  {
  }

  /** Whatever stands in place of the ciphertext: it is read as m exactly if it is m sealed under the derived key,
      and as a failed decryption otherwise. */
  lemma AlteredCiphertext<K(!new)>(
      lib: Libraries<K>, salt: Bytes, nonce: Bytes, passphrase: Bytes, ciphertext: Bytes, m: Bytes)
    requires Lawful(lib) && |salt| == SALT_BYTES && |nonce| == NONCE_BYTES
    requires Frame(lib.dumps(Header(Encryption(salt, nonce))), ciphertext).Some?
    ensures
      var key := lib.kdf(passphrase, salt, TIME_COST, MEMORY_COST, PARALLELISM);
      var r := ReadPayload(lib, Frame(lib.dumps(Header(Encryption(salt, nonce))), ciphertext).value, Some(passphrase));
      && key.Some?
      && (r == Payload(m) <==> ciphertext == lib.seal(key.value, nonce, m))
      && (r.Payload? || r == DecryptionFailed)
  {
    ReadsEncryption(lib, salt, nonce, ciphertext, Some(passphrase));
    OpenWithWritten(lib, salt, nonce, passphrase, ciphertext);
    hide Frame, ReadPayload, OpenWith, KdfParams, Encryption;
    var key := lib.kdf(passphrase, salt, TIME_COST, MEMORY_COST, PARALLELISM).value;
    assert lib.open(key, nonce, ciphertext) == Plain(m) <==> ciphertext == lib.seal(key, nonce, m);
    assert lib.open(key, nonce, ciphertext) != BadArguments;
  }

  /** For bytes of any origin: if a header has an encryption entry and reading with a passphrase gives a payload, that
      entry names a salt, a nonce and costs, and the payload was sealed under the key derived from the passphrase,
      that salt and those costs. */
  lemma EncryptedReadsAreAuthentic<K(!new)>(lib: Libraries<K>, data: Bytes, passphrase: Bytes)
    requires AeadIsSound(lib)
    requires ReadHeader(lib, data).Success? && ReadHeader(lib, data).value.Object?
    requires "encryption" in ReadHeader(lib, data).value.fields
    requires ReadHeader(lib, data).value.fields["encryption"] != Null
    requires ReadPayload(lib, data, Some(passphrase)).Payload?
    ensures
      var e := ReadHeader(lib, data).value.fields["encryption"];
      var m := ReadPayload(lib, data, Some(passphrase)).bytes;
      && e.Object? && HoldsHex(e.fields, "salt") && HoldsHex(e.fields, "nonce")
      && "kdf_params" in e.fields && HoldsCosts(e.fields["kdf_params"])
      && var key := DerivedKey(lib, e.fields, passphrase);
      key.Some? && PayloadOf(data) == lib.seal(key.value, FromHex(e.fields["nonce"].text).value, m)
  {
    hide FromHex, Slice, HeaderLength;
    var f := ReadHeader(lib, data).value.fields["encryption"].fields;
    assert lib.open(DerivedKey(lib, f, passphrase).value, FromHex(f["nonce"].text).value, PayloadOf(data))
      == Plain(ReadPayload(lib, data, Some(passphrase)).bytes);
  }

  // ---------- errors ----------

  predicate HoldsHex(fields: map<string, Json>, name: string) {
    name in fields && fields[name].Text? && FromHex(fields[name].text).Some?
  }

  predicate HoldsOtherThanText(fields: map<string, Json>, name: string) {
    name in fields && !fields[name].Text?
  }

  predicate HoldsCosts(params: Json) {
    params.Object? && {"time_cost", "memory_cost_kib", "parallelism"} <= params.fields.Keys
  }

  /** The key that the libraries derive for an encryption entry. */
  function DerivedKey<K>(lib: Libraries<K>, fields: map<string, Json>, passphrase: Bytes): Option<K>
    requires HoldsHex(fields, "salt") && "kdf_params" in fields && HoldsCosts(fields["kdf_params"])
  {
    var costs := fields["kdf_params"].fields;
    lib.kdf(passphrase, FromHex(fields["salt"].text).value,
            costs["time_cost"], costs["memory_cost_kib"], costs["parallelism"])
  }

  /** An encryption entry of the wrong JSON shape: not an object; or a salt that is not text; or, with a good salt, a
      nonce that is not text; or, with both good, cost parameters that are not an object with all three entries. */
  predicate Misshapen(encryption: Json) {
    || !encryption.Object?
    || HoldsOtherThanText(encryption.fields, "salt")
    || (HoldsHex(encryption.fields, "salt") && HoldsOtherThanText(encryption.fields, "nonce"))
    || (HoldsHex(encryption.fields, "salt") && HoldsHex(encryption.fields, "nonce")
        && "kdf_params" in encryption.fields && !HoldsCosts(encryption.fields["kdf_params"]))
  }

  /** A well-shaped entry whose values the libraries refuse: a salt or cost that derives no key, or a nonce that the
      cipher does not take. */
  predicate Refused<K>(lib: Libraries<K>, encryption: Json, passphrase: Bytes, payload: Bytes) {
    && encryption.Object?
    && HoldsHex(encryption.fields, "salt") && HoldsHex(encryption.fields, "nonce")
    && "kdf_params" in encryption.fields && HoldsCosts(encryption.fields["kdf_params"])
    && var key := DerivedKey(lib, encryption.fields, passphrase);
    key.None? || lib.open(key.value, FromHex(encryption.fields["nonce"].text).value, payload) == BadArguments
  }

  /** The documentation promises a ContainerError for every structural problem. Data without the magic get it. With
      the magic another exception escapes exactly where the header is not text, or is not an object, or, when a
      passphrase is given, where its encryption entry is misshapen or holds values that the libraries refuse. */
  lemma StructuralErrorsEscapeExactly<K(!new)>(lib: Libraries<K>, data: Bytes, passphrase: Option<Bytes>)
    ensures Slice(data, 0, 8) != MAGIC ==> ReadPayload(lib, data, passphrase) == ContainerError
    ensures Slice(data, 0, 8) == MAGIC ==>
      var parsed := lib.loads(Slice(data, 12, 12 + HeaderLength(data)));
      (ReadPayload(lib, data, passphrase) == Uncaught
       <==> || parsed.NotText?
            || (parsed.Value? && !parsed.json.Object?)
            || (&& parsed.Value? && parsed.json.Object? && passphrase.Some?
                && "encryption" in parsed.json.fields && parsed.json.fields["encryption"] != Null
                && (|| Misshapen(parsed.json.fields["encryption"])
                    || Refused(lib, parsed.json.fields["encryption"], passphrase.value, PayloadOf(data)))))
  {
    hide FromHex, Slice, HeaderLength;
  }

  /** The two kinds of escape both happen: a salt too short for the key derivation lets another exception out of a
      header of the right shape. */
  lemma ShortSaltEscapes<K(!new)>(lib: Libraries<K>, salt: Bytes, nonce: Bytes, payload: Bytes, passphrase: Bytes)
    requires lib.loads(lib.dumps(Header(Encryption(salt, nonce)))) == Value(Header(Encryption(salt, nonce)))
    requires lib.kdf(passphrase, salt, TIME_COST, MEMORY_COST, PARALLELISM) == None
    requires Frame(lib.dumps(Header(Encryption(salt, nonce))), payload).Some?
    ensures !Misshapen(Encryption(salt, nonce))
    ensures ReadPayload(lib, Frame(lib.dumps(Header(Encryption(salt, nonce))), payload).value, Some(passphrase)) == Uncaught
  {
    FrameParts(lib.dumps(Header(Encryption(salt, nonce))), payload);
    HexRoundTrip(salt);
    HexRoundTrip(nonce);
    hide Frame, Slice, HeaderLength, PayloadOf, ToHex, FromHex;
  }

  // ---------- other packages than those written ----------

  /** Reading splits whatever carries the magic and a complete header without loss: put together again, the parts are
      the data. */
  lemma ReadingLosesNothing(data: Bytes)
    requires Slice(data, 0, 8) == MAGIC && 12 + HeaderLength(data) <= |data|
    ensures Frame(Slice(data, 12, 12 + HeaderLength(data)), PayloadOf(data)) == Some(data)
  {
    FourBytes();
    var length := data[8..12];
    BytesRoundTrip(length);
    assert Slice(data, 8, 12) == length;
    var n := HeaderLength(data);
    assert n < LENGTH_LIMIT && ToBytes(n, 4) == length;
    hide ToBytes, FromBytes, HeaderLength;
    assert Slice(data, 12, 12 + n) == data[12..12 + n] && PayloadOf(data) == data[12 + n..];
    assert data[0..8] == MAGIC;
    assert data == data[0..8] + data[8..12] + data[12..12 + n] + data[12 + n..];
  }

  // ---------- the laws can be met ----------

  function ToyOpen(k: Byte, c: Bytes): Opened {
    if c != [] && c[0] == k then Plain(c[1..]) else InvalidTag
  }

  function HexOf(header: Json, name: string): Bytes {
    if header.Object? && "encryption" in header.fields && header.fields["encryption"].Object?
      && HoldsHex(header.fields["encryption"].fields, name)
    then FromHex(header.fields["encryption"].fields[name].text).value
    else []
  }

  function ToyDumps(header: Json): Bytes {
    if header == Header(Null) then [0] else [1] + HexOf(header, "salt") + HexOf(header, "nonce")
  }

  function ToyLoads(b: Bytes): Parsed {
    if b == [0] then Value(Header(Null))
    else if |b| == 1 + SALT_BYTES + NONCE_BYTES && b[0] == 1 then
      Value(Header(Encryption(b[1..1 + SALT_BYTES], b[1 + SALT_BYTES..])))
    else NotJson
  }

  /** A key is one byte, the passphrase's length, and is written in front of the text. */
  function ToyKey(passphrase: Bytes): Byte {
    |passphrase| % 256
  }

  function Marked(k: Byte, m: Bytes): Bytes {
    [k] + m
  }

  const TOY: Libraries<Byte> := Libraries(
    ToyDumps, ToyLoads,
    (p: Bytes, s: Bytes, t: Json, m: Json, l: Json) => Some(ToyKey(p)),
    (k: Byte, n: Bytes, m: Bytes) => Marked(k, m),
    (k: Byte, n: Bytes, c: Bytes) => ToyOpen(k, c))

  /** There are libraries with finitely many keys that satisfy all the laws at once and separate passphrases. */
  lemma LawsAreConsistent(salt: Bytes, nonce: Bytes, zip: Bytes, passphrase: Bytes, other: Bytes)
    ensures Lawful(TOY)
    ensures ToyKey(passphrase) != ToyKey(other) ==> Separates(TOY, salt, nonce, zip, passphrase, other)
  {
    forall h: Json | IsWritten(h) ensures TOY.loads(TOY.dumps(h)) == Value(h) {
      if h != Header(Null) {
        var s: Bytes, n: Bytes :| |s| == SALT_BYTES && |n| == NONCE_BYTES && h == Header(Encryption(s, n));
        ToyHeaders(s, n);
      }
    }
    var k, l := ToyKey(passphrase), ToyKey(other);
    forall m: Bytes ensures k != l ==> Marked(l, m) != Marked(k, zip) {
      assert Marked(l, m)[0] == l && Marked(k, zip)[0] == k;
    }
  }

  lemma ToyHeaders(s: Bytes, n: Bytes)
    requires |s| == SALT_BYTES && |n| == NONCE_BYTES
    ensures ToyLoads(ToyDumps(Header(Encryption(s, n)))) == Value(Header(Encryption(s, n)))
  {
    HexRoundTrip(s);
    HexRoundTrip(n);
    hide ToHex, FromHex;
    assert Header(Encryption(s, n)) != Header(Null);
    var b := ToyDumps(Header(Encryption(s, n)));
    assert b == [1] + s + n;
    assert b[1..1 + SALT_BYTES] == s && b[1 + SALT_BYTES..] == n;
  }
}
