// pkg/document/envelope.go
module Documents {
  import opened Wrappers
  import opened Text

  const SCHEMA_VERSION := 1
  const DATA := "data/"
  const SYSTEM := "system/"

  datatype Metadata = Metadata(version: int, contentType: string, encrypted: bool,
                               labels: map<string, string>, owner: string)

  datatype Envelope = Envelope(schema: int, metadata: Metadata, document: string)

  // The YAML library: `unmarshal` is None where the library reports an error.
  datatype Codec = Codec(marshal: Envelope -> string, unmarshal: string -> Option<Envelope>)

  ghost predicate Inverse(codec: Codec) {
    forall e :: codec.unmarshal(codec.marshal(e)) == Some(e)
  }

  function ParseEnvelope(codec: Codec, raw: string): Result<Envelope> {
    match codec.unmarshal(raw)
    case None => Err(Malformed)
    case Some(e) =>
      if e.schema != 0 && e.schema != SCHEMA_VERSION then Err(Malformed)
      else Ok(e.(schema := SCHEMA_VERSION))
  }

  function Marshal(codec: Codec, e: Envelope): string {
    codec.marshal(e.(schema := SCHEMA_VERSION))
  }

  // What is written says schema 1 and nothing else is changed.
  lemma MarshalParse(codec: Codec, e: Envelope)
    requires Inverse(codec)
    ensures codec.unmarshal(Marshal(codec, e)) == Some(Envelope(1, e.metadata, e.document))
    ensures ParseEnvelope(codec, Marshal(codec, e)) == Ok(e.(schema := SCHEMA_VERSION))
  {
    assert codec.unmarshal(codec.marshal(e.(schema := SCHEMA_VERSION))).Some?;
  }

  function GitPath(apiPath: string): string {
    var path := TrimPrefix(apiPath, "/");
    if HasPrefix(path, SYSTEM) then path else DATA + path
  }

  function DefaultEncryptForPath(apiPath: string): bool {
    HasPrefix(TrimPrefix(apiPath, "/"), "secrets/")
  }

  // A file the library parses counts when its schema is missing or 1.
  predicate FileHolds(codec: Codec, raw: string, e: Envelope) {
    e.schema == 1 && (codec.unmarshal(raw) == Some(e) || codec.unmarshal(raw) == Some(e.(schema := 0)))
  }

  lemma ParsedHolds(codec: Codec, raw: string, e: Envelope)
    ensures ParseEnvelope(codec, raw) == Ok(e) <==> FileHolds(codec, raw, e)
    ensures ParseEnvelope(codec, raw).Err? ==> ParseEnvelope(codec, raw) == Err(Malformed)
  {
    var parsed := codec.unmarshal(raw);
    if parsed.Some? && parsed.value.schema == 0 {
      assert parsed.value.(schema := 1).(schema := 0) == parsed.value;
    }
  }

  // Without a leading slash a path of two or more segments under system stays as it is, and
  // any other goes under data.
  lemma GitPathBySegments(apiPath: string)
    ensures
      var path := Split(if apiPath != "" && apiPath[0] == '/' then apiPath[1..] else apiPath);
      Split(GitPath(apiPath)) == if |path| > 1 && path[0] == "system" then path else ["data"] + path
  {
    var path := TrimPrefix(apiPath, "/");
    PrefixIsSegment(path, "system");
    SplitCons("data", path);
    assert "system" + "/" == SYSTEM && "data" + "/" == DATA;
    assert HasPrefix(apiPath, "/") <==> apiPath != "" && apiPath[0] == '/';
  }

  // Encrypted unless the request says otherwise: what lies below secrets.
  predicate IsSecret(path: seq<string>) {
    |path| > 1 && path[0] == "secrets"
  }

  lemma SecretsBySegments(apiPath: string)
    ensures
      var path := Split(if apiPath != "" && apiPath[0] == '/' then apiPath[1..] else apiPath);
      DefaultEncryptForPath(apiPath) <==> IsSecret(path)
  {
    PrefixIsSegment(TrimPrefix(apiPath, "/"), "secrets");
    assert "secrets" + "/" == "secrets/";
    assert HasPrefix(apiPath, "/") <==> apiPath != "" && apiPath[0] == '/';
  }

  // Two API paths name the same file exactly when they differ at most in one leading slash.
  lemma GitPathInjective(a: string, b: string)
    ensures GitPath(a) == GitPath(b) <==> TrimPrefix(a, "/") == TrimPrefix(b, "/")
  {
    var x, y := TrimPrefix(a, "/"), TrimPrefix(b, "/");
    TrimPrefixInverse(x, DATA);
    TrimPrefixInverse(y, DATA);
    assert (DATA + x)[0] == 'd' && (DATA + y)[0] == 'd' && SYSTEM[0] == 's';
    assert HasPrefix(x, SYSTEM) ==> x[0] == 's';
    assert HasPrefix(y, SYSTEM) ==> y[0] == 's';
  }
}
