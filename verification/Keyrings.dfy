// pkg/crypto/keyring.go: the first key encrypts, every key decrypts.
module Keyrings {
  import opened Wrappers
  import opened Seqs
  import opened Text

  const KEY_SIZE := 32
  const NONCE_SIZE := 12

  // Loading refuses an empty ring, so a ring has a first key.
  type KeyRing = keys: seq<string> | |keys| > 0 witness [""]

  type Nonce = n: string | |n| == NONCE_SIZE witness "000000000000"

  // AES-GCM (NIST SP 800-38D) and standard base64 (section 4 of RFC 4648).
  datatype Aead = Aead(
    seal: (string, string, string) -> string,
    open: (string, string, string) -> Option<string>,
    encode: string -> string,
    decode: string -> Option<string>)

  // The ideal cipher: what one key sealed opens under that key and under no other.
  ghost predicate Ideal(a: Aead) {
    && (forall key, nonce, plain :: a.open(key, nonce, a.seal(key, nonce, plain)) == Some(plain))
    && (forall key, other, nonce, plain :: key != other ==> a.open(other, nonce, a.seal(key, nonce, plain)).None?)
    && (forall raw :: a.decode(a.encode(raw)) == Some(raw))
  }

  function Encrypt(a: Aead, keys: KeyRing, nonce: Nonce, plain: string): string {
    a.encode(nonce + a.seal(keys[0], nonce, plain))
  }

  function DecryptWithKey(a: Aead, key: string, raw: string): Option<string> {
    if |raw| < NONCE_SIZE then None else a.open(key, raw[..NONCE_SIZE], raw[NONCE_SIZE..])
  }

  // The first key of the ring that opens `raw`.
  function FirstOpening(a: Aead, keys: seq<string>, raw: string): Option<string> {
    if keys == [] then None
    else match DecryptWithKey(a, keys[0], raw)
         case Some(plain) => Some(plain)
         case None => FirstOpening(a, keys[1..], raw)
  }

  function Decrypted(a: Aead, keys: seq<string>, encoded: string): Result<string> {
    match a.decode(encoded)
    case None => Err(Undecryptable)
    case Some(raw) =>
      match FirstOpening(a, keys, raw)
      case None => Err(Undecryptable)
      case Some(plain) => Ok(plain)
  }

  // The i-th key opens what follows the 12 bytes of the nonce, and no key before it does.
  ghost predicate OpensFirst(a: Aead, keys: seq<string>, raw: string, i: nat, plain: string) {
    && i < |keys| && |raw| >= 12
    && a.open(keys[i], raw[..12], raw[12..]) == Some(plain)
    && forall j :: 0 <= j < i ==> a.open(keys[j], raw[..12], raw[12..]).None?
  }

  lemma OpensNext(a: Aead, keys: seq<string>, raw: string, i: nat, plain: string)
    requires keys != []
    ensures OpensFirst(a, keys, raw, i + 1, plain) <==>
            DecryptWithKey(a, keys[0], raw).None? && OpensFirst(a, keys[1..], raw, i, plain)
  {
    var rest := keys[1..];
    assert forall j :: 0 <= j < |rest| ==> rest[j] == keys[j + 1];
    if OpensFirst(a, rest, raw, i, plain) && DecryptWithKey(a, keys[0], raw).None? {
      forall j | 0 <= j < i + 1 ensures a.open(keys[j], raw[..12], raw[12..]).None? {
        if j > 0 { assert keys[j] == rest[j - 1]; }
      }
    }
  }

  lemma {:induction false} FirstOpeningOpens(a: Aead, keys: seq<string>, raw: string, plain: string)
    ensures FirstOpening(a, keys, raw) == Some(plain) <==> exists i :: OpensFirst(a, keys, raw, i, plain)
  {
    if keys != [] {
      FirstOpeningOpens(a, keys[1..], raw, plain);
      assert OpensFirst(a, keys, raw, 0, plain) <==> DecryptWithKey(a, keys[0], raw) == Some(plain);
      if i: nat :| OpensFirst(a, keys[1..], raw, i, plain) { OpensNext(a, keys, raw, i, plain); }
      if i: nat :| i > 0 && OpensFirst(a, keys, raw, i, plain) { OpensNext(a, keys, raw, i - 1, plain); }
    }
  }

  method Decrypt(a: Aead, keys: KeyRing, encoded: string) returns (r: Result<string>)
    ensures r == Decrypted(a, keys, encoded)
    ensures forall plain :: r == Ok(plain) <==>
      a.decode(encoded).Some? && exists i :: OpensFirst(a, keys, a.decode(encoded).value, i, plain)
  {
    forall plain, raw { FirstOpeningOpens(a, keys, raw, plain); }
    var decoded := a.decode(encoded);
    if decoded.None? { return Err(Undecryptable); }
    var raw := decoded.value;
    var i := 0;
    while i < |keys|
      invariant 0 <= i <= |keys|
      invariant FirstOpening(a, keys, raw) == FirstOpening(a, keys[i..], raw)
    {
      var plain := DecryptWithKey(a, keys[i], raw);
      if plain.Some? { return Ok(plain.value); }
      assert keys[i..][1..] == keys[i + 1..];
      i := i + 1;
    }
    r := Err(Undecryptable);
  }

  lemma {:induction false} OpeningNeedsTheKey(a: Aead, keys: seq<string>, key: string, nonce: Nonce, plain: string)
    requires Ideal(a)
    ensures FirstOpening(a, keys, nonce + a.seal(key, nonce, plain)) == if key in keys then Some(plain) else None
  {
    if keys != [] {
      var sealed := a.seal(key, nonce, plain);
      var raw := nonce + sealed;
      assert raw[..NONCE_SIZE] == nonce && raw[NONCE_SIZE..] == sealed;
      assert DecryptWithKey(a, keys[0], raw) == if keys[0] == key then Some(plain) else None;
      OpeningNeedsTheKey(a, keys[1..], key, nonce, plain);
    }
  }

  // What is written is the 12 bytes of the nonce and then what the first key sealed.
  lemma SealedUnderFirstKey(a: Aead, keys: KeyRing, nonce: Nonce, plain: string)
    requires Ideal(a)
    ensures
      var raw := a.decode(Encrypt(a, keys, nonce, plain));
      && raw.Some? && |raw.value| >= 12 && raw.value[..12] == nonce
      && a.open(keys[0], nonce, raw.value[12..]) == Some(plain)
  {
    var sealed := a.seal(keys[0], nonce, plain);
    assert (nonce + sealed)[..12] == nonce && (nonce + sealed)[12..] == sealed;
    assert a.decode(Encrypt(a, keys, nonce, plain)) == Some(nonce + sealed);
  }

  // Key rotation: a ciphertext stays readable exactly as long as the ring it is read with
  // holds the key it was made with, at any position.
  lemma DecryptAfterRotation(a: Aead, sealing: KeyRing, reading: KeyRing, nonce: Nonce, plain: string)
    requires Ideal(a)
    ensures Decrypted(a, reading, Encrypt(a, sealing, nonce, plain)) ==
            if sealing[0] in reading then Ok(plain) else Err(Undecryptable)
  {
    OpeningNeedsTheKey(a, reading, sealing[0], nonce, plain);
    assert a.decode(Encrypt(a, sealing, nonce, plain)).Some?;
  }

  // Whether a line holds a key; `trim` is strings.TrimSpace.
  predicate IsKeyLine(trim: string -> string, line: string) {
    trim(line) != "" && !HasPrefix(trim(line), "#")
  }

  function Significant(trim: string -> string): string -> bool {
    (line: string) => IsKeyLine(trim, line)
  }

  predicate GoodKey(a: Aead, trim: string -> string, line: string) {
    var key := a.decode(trim(line));
    key.Some? && |key.value| == KEY_SIZE
  }

  // One key per significant line, in order.
  ghost predicate KeysOf(a: Aead, trim: string -> string, lines: seq<string>, keys: seq<string>) {
    var texts := Filter(lines, Significant(trim));
    && |keys| == |texts|
    && forall i :: 0 <= i < |keys| ==> a.decode(trim(texts[i])) == Some(keys[i]) && |keys[i]| == KEY_SIZE
  }

  lemma KeysOfNext(a: Aead, trim: string -> string, lines: seq<string>, i: nat, keys: seq<string>, key: string)
    requires i < |lines| && KeysOf(a, trim, lines[..i], keys) && IsKeyLine(trim, lines[i])
    requires a.decode(trim(lines[i])) == Some(key) && |key| == KEY_SIZE
    ensures KeysOf(a, trim, lines[..i + 1], keys + [key])
  {
    FilterSnoc(lines, i, Significant(trim));
  }

  lemma KeysOfSkip(a: Aead, trim: string -> string, lines: seq<string>, i: nat, keys: seq<string>)
    requires i < |lines| && KeysOf(a, trim, lines[..i], keys) && !IsKeyLine(trim, lines[i])
    ensures KeysOf(a, trim, lines[..i + 1], keys)
  {
    FilterSnoc(lines, i, Significant(trim));
  }

  // `unreadable`: the scanner stopped with an error after the given lines.
  method LoadKeyRing(a: Aead, trim: string -> string, lines: seq<string>, unreadable: bool) returns (r: Result<KeyRing>)
    ensures r.Ok? <==>
      !unreadable
      && (exists line :: line in lines && trim(line) != "" && trim(line)[0] != '#')
      && (forall line :: line in lines && trim(line) != "" && trim(line)[0] != '#' ==>
            a.decode(trim(line)).Some? && |a.decode(trim(line)).value| == 32)
    ensures r.Ok? ==> KeysOf(a, trim, lines, r.value)
  {
    hide KeysOf, Significant;
    var keys: seq<string> := [];
    var i := 0;
    NoKeys(a, trim);
    assert lines[..0] == [];
    while i < |lines|
      invariant 0 <= i <= |lines|
      invariant KeysOf(a, trim, lines[..i], keys)
      invariant forall j :: 0 <= j < i && IsKeyLine(trim, lines[j]) ==> GoodKey(a, trim, lines[j])
    {
      var line := trim(lines[i]);
      if line == "" || HasPrefix(line, "#") {
        KeysOfSkip(a, trim, lines, i, keys);
      } else {
        assert lines[i] in lines && IsKeyLine(trim, lines[i]);
        var key := a.decode(line);
        if key.None? { return Err(Malformed); }
        if |key.value| != KEY_SIZE { return Err(Malformed); }
        KeysOfNext(a, trim, lines, i, keys, key.value);
        keys := keys + [key.value];
      }
      i := i + 1;
    }
    assert lines[..|lines|] == lines;
    if unreadable { return Err(Failed("read")); }
    SomeKeys(a, trim, lines, keys);
    if |keys| == 0 { return Err(Malformed); }
    r := Ok(keys);
  }

  lemma NoKeys(a: Aead, trim: string -> string)
    ensures KeysOf(a, trim, [], [])
  {
  }

  lemma SomeKeys(a: Aead, trim: string -> string, lines: seq<string>, keys: seq<string>)
    requires KeysOf(a, trim, lines, keys)
    ensures keys != [] <==> exists line :: line in lines && IsKeyLine(trim, line)
  {
    FilterNothing(lines, Significant(trim));
  }
}
