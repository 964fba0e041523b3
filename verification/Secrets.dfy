/** Provider secrets at rest: how a column is sealed and opened, and the pass that seals what is
    still stored in the clear. A `string` stands for bytes. */
module Secrets {
  import opened Wrappers

  datatype Error = NoKey | BadJson | BadEncoding | BadCipher | NoNonce | WriteFailed

  // ---------- the libraries ----------

  /** Encryption under the configured key with a given nonce, base64, and JSON strings. */
  datatype Codec = Codec(
    encrypt: (string, string) -> string,
    decrypt: string -> Option<string>,
    base64: string -> string,
    unbase64: string -> Option<string>,
    quote: string -> string,
    unquote: string -> Option<string>
  )

  /** JSON values of one Go type, with its zero value. */
  datatype Json<!V> = Json(encode: V -> string, decode: string -> Option<V>, zero: V)

  const MARK := "enc:"

  predicate IsQuoted(s: string) {
    s != "" && s[0] == '"'
  }

  /** Decrypting undoes encrypting, decoding undoes encoding. */
  ghost predicate Lawful(c: Codec) {
    (forall n, p :: c.decrypt(c.encrypt(n, p)) == Some(p)) &&
    (forall s :: c.unbase64(c.base64(s)) == Some(s)) &&
    (forall s :: c.unquote(c.quote(s)) == Some(s) && IsQuoted(c.quote(s)))
  }

  ghost predicate LawfulJson<V(!new)>(j: Json<V>) {
    forall v :: j.decode(j.encode(v)) == Some(v) && j.encode(v) != ""
  }

  // ---------- one column ----------

  /** `key` says that an encryption key is configured; a failed draw of a nonce is `None`. */
  function SealBytes(c: Codec, key: bool, nonce: Option<string>, plain: string): Result<string, Error> {
    if !key then Err(NoKey)
    else if nonce.None? then Err(NoNonce)
    else Ok(MARK + c.base64(c.encrypt(nonce.value, plain)))
  }

  /** The plaintext of a stored value, and whether it was sealed. */
  function OpenBytes(c: Codec, key: bool, stored: string, isJson: bool): Result<(string, bool), Error> {
    if isJson && !IsQuoted(stored) then Ok((stored, false))
    else
      var payload := if isJson then c.unquote(stored) else Some(stored);
      if payload.None? then Err(BadJson)
      else if !(MARK <= payload.value) then Ok((payload.value, false))
      else if !key then Err(NoKey)
      else
        match c.unbase64(payload.value[|MARK|..])
        case None => Err(BadEncoding)
        case Some(sealed) =>
          match c.decrypt(sealed)
          case None => Err(BadCipher)
          case Some(plain) => Ok((plain, true))
  }

  function SealJson<V>(c: Codec, key: bool, nonce: Option<string>, j: Json<V>, v: V): Result<string, Error> {
    match SealBytes(c, key, nonce, j.encode(v))
    case Err(e) => Err(e)
    case Ok(s) => Ok(c.quote(s))
  }

  function OpenJson<V>(c: Codec, key: bool, j: Json<V>, stored: string): Result<V, Error> {
    match OpenBytes(c, key, stored, true)
    case Err(e) => Err(e)
    case Ok((plain, _)) =>
      if plain == "" then Ok(j.zero)
      else match j.decode(plain) case None => Err(BadJson) case Some(v) => Ok(v)
  }

  function SealText(c: Codec, key: bool, nonce: Option<string>, s: string): Result<string, Error> {
    if s == "" then Ok("") else SealBytes(c, key, nonce, s)
  }

  function OpenText(c: Codec, key: bool, stored: string): Result<string, Error> {
    if stored == "" then Ok("")
    else match OpenBytes(c, key, stored, false) case Err(e) => Err(e) case Ok((plain, _)) => Ok(plain)
  }

  predicate IsSealed(c: Codec, key: bool, stored: string, isJson: bool) {
    var o := OpenBytes(c, key, stored, isJson);
    o.Ok? && o.value.1
  }

  /** A sealed JSON value opens to the value. */
  lemma SealJsonOpens<V(!new)>(c: Codec, nonce: Option<string>, j: Json<V>, v: V)
    requires Lawful(c) && LawfulJson(j) && nonce.Some?
    ensures var s := SealJson(c, true, nonce, j, v);
      s.Ok? && OpenJson(c, true, j, s.value) == Ok(v) && IsSealed(c, true, s.value, true)
  {
    assert j.decode(j.encode(v)) == Some(v) && j.encode(v) != "";
  }

  /** A sealed text opens to the text; the empty text stays empty. */
  lemma SealTextOpens(c: Codec, nonce: Option<string>, t: string)
    requires Lawful(c) && nonce.Some?
    ensures var s := SealText(c, true, nonce, t);
      s.Ok? && OpenText(c, true, s.value) == Ok(t) && (s.value == "" <==> t == "") &&
      (t != "" ==> IsSealed(c, true, s.value, false))
  {
  }

  /** What is written for a row: every column under the nonce drawn for it, and empty texts as they are. */
  lemma SealRowWrites<K(!new), H(!new)>(u: Setup<K, H>, name: string, s: Secret<K, H>, n: Nonces)
    requires SealRow(u, name, s, n).Ok?
    ensures var row, c := SealRow(u, name, s, n).value, u.codec;
      row.name == name && Drawn(s, n) &&
      row.keys == c.quote("enc:" + c.base64(c.encrypt(n.keys.value, u.keys.encode(s.keys)))) &&
      row.headers == c.quote("enc:" + c.base64(c.encrypt(n.headers.value, u.headers.encode(s.headers)))) &&
      row.access == (if s.access == "" then "" else "enc:" + c.base64(c.encrypt(n.access.value, s.access))) &&
      row.secret == if s.secret == "" then "" else "enc:" + c.base64(c.encrypt(n.secret.value, s.secret))
  {
  }

  /** A JSON column from before encryption reads as it always did when it is not a string. */
  lemma LegacyReads<V(!new)>(c: Codec, key: bool, j: Json<V>, v: V)
    requires LawfulJson(j) && !("\"" <= j.encode(v))
    ensures OpenJson(c, key, j, j.encode(v)) == Ok(v)
  {
    assert j.decode(j.encode(v)) == Some(v) && j.encode(v) != "";
  }

  /** Sealing makes a text longer, so opening one never gives as much back. */
  ghost predicate Shrinks(c: Codec) {
    forall s, x, p :: c.unbase64(s) == Some(x) && c.decrypt(x) == Some(p) ==> |p| <= |s|
  }

  /** Text from before encryption reads as it always did if and only if it does not begin with the
      mark; text that does is taken for a sealed one. */
  lemma LegacyTextExact(c: Codec, key: bool, t: string)
    requires Shrinks(c)
    ensures OpenText(c, key, t) == Ok(t) <==> !("enc:" <= t)
    ensures "enc:" <= t && OpenText(c, key, t).Ok? ==> IsSealed(c, key, t, false)
  {
    if MARK <= t && key {
      var s := t[|MARK|..];
      match c.unbase64(s)
      case None =>
      case Some(x) => assert c.decrypt(x).Some? ==> |c.decrypt(x).value| <= |s|;
    }
  }

  // ---------- one row ----------

  datatype Row = Row(name: string, keys: string, headers: string, access: string, secret: string)

  datatype Secret<K, H> = Secret(keys: K, headers: H, access: string, secret: string)

  datatype Setup<!K, !H> = Setup(codec: Codec, key: bool, keys: Json<K>, headers: Json<H>)

  ghost predicate LawfulSetup<K(!new), H(!new)>(u: Setup<K, H>) {
    Lawful(u.codec) && LawfulJson(u.keys) && LawfulJson(u.headers)
  }

  /** The secrets as the repository reads them. */
  function OpenRow<K, H>(u: Setup<K, H>, row: Row): Result<Secret<K, H>, Error> {
    match OpenJson(u.codec, u.key, u.keys, row.keys)
    case Err(e) => Err(e)
    case Ok(keys) =>
      match OpenJson(u.codec, u.key, u.headers, row.headers)
      case Err(e) => Err(e)
      case Ok(headers) =>
        match OpenText(u.codec, u.key, row.access)
        case Err(e) => Err(e)
        case Ok(access) =>
          match OpenText(u.codec, u.key, row.secret)
          case Err(e) => Err(e)
          case Ok(secret) => Ok(Secret(keys, headers, access, secret))
  }

  /** Whether some column is unsealed; an empty text column needs no seal, an empty JSON column does. */
  function NeedUpdate<K, H>(u: Setup<K, H>, row: Row): Result<bool, Error> {
    match OpenBytes(u.codec, u.key, row.keys, true)
    case Err(e) => Err(e)
    case Ok((_, keys)) =>
      match OpenBytes(u.codec, u.key, row.headers, true)
      case Err(e) => Err(e)
      case Ok((_, headers)) =>
        match NeedText(u.codec, u.key, row.access)
        case Err(e) => Err(e)
        case Ok(access) =>
          match NeedText(u.codec, u.key, row.secret)
          case Err(e) => Err(e)
          case Ok(secret) => Ok(!keys || !headers || access || secret)
  }

  function NeedText(c: Codec, key: bool, stored: string): Result<bool, Error> {
    if stored == "" then Ok(false)
    else match OpenBytes(c, key, stored, false) case Err(e) => Err(e) case Ok((_, sealed)) => Ok(!sealed)
  }

  /** The nonces drawn for one row, column by column. */
  datatype Nonces = Nonces(
    keys: Option<string>, headers: Option<string>, access: Option<string>, secret: Option<string>)

  function SealRow<K, H>(u: Setup<K, H>, name: string, s: Secret<K, H>, n: Nonces): Result<Row, Error> {
    match SealJson(u.codec, u.key, n.keys, u.keys, s.keys)
    case Err(e) => Err(e)
    case Ok(keys) =>
      match SealJson(u.codec, u.key, n.headers, u.headers, s.headers)
      case Err(e) => Err(e)
      case Ok(headers) =>
        match SealText(u.codec, u.key, n.access, s.access)
        case Err(e) => Err(e)
        case Ok(access) =>
          match SealText(u.codec, u.key, n.secret, s.secret)
          case Err(e) => Err(e)
          case Ok(secret) => Ok(Row(name, keys, headers, access, secret))
  }

  /** One turn of the pass: the row as it is afterwards. */
  function ReencryptRow<K, H>(u: Setup<K, H>, row: Row, n: Nonces, writable: bool): Result<Row, Error> {
    match NeedUpdate(u, row)
    case Err(e) => Err(e)
    case Ok(need) =>
      if !need then Ok(row)
      else match OpenRow(u, row)
        case Err(e) => Err(e)
        case Ok(s) =>
          match SealRow(u, row.name, s, n)
          case Err(e) => Err(e)
          case Ok(sealed) => if writable then Ok(sealed) else Err(WriteFailed)
  }

  /** Every JSON column and every non-empty text column is sealed. */
  predicate AllSealed<K, H>(u: Setup<K, H>, row: Row) {
    IsSealed(u.codec, u.key, row.keys, true) && IsSealed(u.codec, u.key, row.headers, true) &&
    (row.access != "" ==> IsSealed(u.codec, u.key, row.access, false)) &&
    (row.secret != "" ==> IsSealed(u.codec, u.key, row.secret, false))
  }

  lemma NeedUpdateExact<K, H>(u: Setup<K, H>, row: Row)
    ensures NeedUpdate(u, row) == Ok(false) <==> AllSealed(u, row)
  {
  }

  lemma SealRowOpens<K(!new), H(!new)>(u: Setup<K, H>, name: string, s: Secret<K, H>, n: Nonces)
    requires LawfulSetup(u) && SealRow(u, name, s, n).Ok?
    ensures var row := SealRow(u, name, s, n).value;
      row.name == name && OpenRow(u, row) == Ok(s) && AllSealed(u, row)
  {
    SealJsonOpens(u.codec, n.keys, u.keys, s.keys);
    SealJsonOpens(u.codec, n.headers, u.headers, s.headers);
    if s.access != "" {
      SealTextOpens(u.codec, n.access, s.access);
    }
    if s.secret != "" {
      SealTextOpens(u.codec, n.secret, s.secret);
    }
  }

  /** The pass keeps what a row means and leaves it sealed. */
  lemma RowKeepsSecrets<K(!new), H(!new)>(u: Setup<K, H>, row: Row, n: Nonces, writable: bool)
    requires LawfulSetup(u) && ReencryptRow(u, row, n, writable).Ok?
    ensures var after := ReencryptRow(u, row, n, writable).value;
      after.name == row.name && OpenRow(u, after) == OpenRow(u, row) && AllSealed(u, after)
    ensures AllSealed(u, row) ==> ReencryptRow(u, row, n, writable).value == row
  {
    NeedUpdateExact(u, row);
    if NeedUpdate(u, row) == Ok(true) {
      SealRowOpens(u, row.name, OpenRow(u, row).value, n);
    }
  }

  /** A nonce for every column that gets sealed. */
  predicate Drawn<K, H>(s: Secret<K, H>, n: Nonces) {
    n.keys.Some? && n.headers.Some? && (s.access != "" ==> n.access.Some?) && (s.secret != "" ==> n.secret.Some?)
  }

  /** When the pass gets past a row: the key is there, and the row is sealed already, or it can be
      read and the nonces and the write do not fail. In particular one unreadable row stops it. */
  lemma RowPasses<K, H>(u: Setup<K, H>, row: Row, n: Nonces, writable: bool)
    ensures ReencryptRow(u, row, n, writable).Ok? <==>
      u.key && (AllSealed(u, row) || (OpenRow(u, row).Ok? && Drawn(OpenRow(u, row).value, n) && writable))
  {
    NeedUpdateExact(u, row);
    KeyNeeded(u, row);
  }

  lemma KeyNeeded<K, H>(u: Setup<K, H>, row: Row)
    ensures AllSealed(u, row) ==> u.key
    ensures forall s: Secret<K, H>, n, name :: SealRow(u, name, s, n).Ok? <==> u.key && Drawn(s, n)
  {
  }

  // ---------- the pass ----------

  class Providers<K(!new), H(!new)> {
    /** The provider rows in name order. */
    var rows: seq<Row>

    constructor (rows: seq<Row>)
      ensures this.rows == rows
    {
      this.rows := rows;
    }

    /** Walks the rows and stops at the first error. However far it gets, every row goes on reading
        as it did; rows behind the stop are untouched, and rows before it are sealed. */
    method Reencrypt(u: Setup<K, H>, nonces: nat -> Nonces, writable: nat -> bool)
      returns (r: Result<(), Error>, done: nat)
      requires LawfulSetup(u)
      modifies this
      ensures |rows| == |old(rows)| && done <= |rows| && (r.Ok? <==> done == |rows|)
      ensures forall i :: 0 <= i < |rows| ==>
        rows[i].name == old(rows)[i].name && OpenRow(u, rows[i]) == OpenRow(u, old(rows)[i])
      ensures forall i :: 0 <= i < done ==>
        AllSealed(u, rows[i]) && ReencryptRow(u, old(rows)[i], nonces(i), writable(i)) == Ok(rows[i])
      ensures forall i :: done <= i < |rows| ==> rows[i] == old(rows)[i]
      ensures r.Err? ==> ReencryptRow(u, old(rows)[done], nonces(done), writable(done)) == Err(r.error)
      ensures (forall i :: 0 <= i < |rows| ==> AllSealed(u, old(rows)[i])) ==> r.Ok? && rows == old(rows)
    {
      done := 0;
      while done < |rows|
        invariant |rows| == |old(rows)| && done <= |rows|
        invariant forall i :: 0 <= i < |rows| ==>
          rows[i].name == old(rows)[i].name && OpenRow(u, rows[i]) == OpenRow(u, old(rows)[i])
        invariant forall i :: 0 <= i < done ==>
          AllSealed(u, rows[i]) && ReencryptRow(u, old(rows)[i], nonces(i), writable(i)) == Ok(rows[i])
        invariant forall i :: done <= i < |rows| ==> rows[i] == old(rows)[i]
        invariant (forall i :: 0 <= i < |rows| ==> AllSealed(u, old(rows)[i])) ==> rows == old(rows)
      {
        var after := ReencryptRow(u, rows[done], nonces(done), writable(done));
        RowPasses(u, rows[done], nonces(done), writable(done));
        if after.Err? {
          KeyNeeded(u, rows[done]);
          return Err(after.error), done;
        }
        RowKeepsSecrets(u, rows[done], nonces(done), writable(done));
        rows := rows[done := after.value];
        done := done + 1;
      }
      return Ok(()), done;
    }
  }
}
