// pkg/api/server.go: the decisions of the handlers. Status codes are those of net/http.
module Server {
  import opened Wrappers
  import opened Seqs
  import opened Text
  import opened Documents
  import opened Keyrings
  import opened Indexes
  import opened Changes
  import opened Git
  import opened Store
  import opened StoreOutcomes
  import opened GitStores
  import opened Auth
  import opened Polling
  import Client

  const OK := 200
  const NO_CONTENT := 204
  const BAD_REQUEST := 400
  const FORBIDDEN := 403
  const NOT_FOUND := 404
  const CONFLICT := 409
  const INTERNAL := 500

  datatype PutRequest = PutRequest(document: string, contentType: string, encrypt: Option<bool>, expected: int)

  // What a well-formed PUT asks the store for.
  function PutArgs(p: Principal, path: string, req: PutRequest, ifMatch: Option<int>): ApplyArgs {
    ApplyArgs(path, req.document, req.contentType,
              if req.encrypt.Some? then req.encrypt.value else DefaultEncryptForPath(path),
              if ifMatch.Some? then ifMatch.value else req.expected,
              p.kind + ":" + p.id)
  }

  // The version a PUT is conditional on: a numeric If-Match header wins over the body.
  function Expected(req: PutRequest, ifMatch: Option<int>): (version: int)
    ensures ifMatch == Some(version) || (ifMatch == None && version == req.expected)
  {
    if ifMatch.Some? then ifMatch.value else req.expected
  }

  lemma PutIsApply(p: Principal, path: string, req: PutRequest, ifMatch: Option<int>)
    ensures
      var args := PutArgs(p, path, req, ifMatch);
      && args.path == path && args.body == req.document && args.contentType == req.contentType
      && args.expected == Expected(req, ifMatch) && args.owner == p.kind + ":" + p.id
      && (args.encrypt <==>
            req.encrypt == Some(true) || (req.encrypt == None && IsSecret(Split(TrimPrefix(path, "/")))))
  {
    SecretsBySegments(path);
    assert TrimPrefix(path, "/") == if path != "" && path[0] == '/' then path[1..] else path;
  }

  class Server {
    const store: GitStore
    const auth: Engine

    constructor (store: GitStore, auth: Engine)
      ensures this.store == store && this.auth == auth
    {
      this.store, this.auth := store, auth;
    }

    ghost predicate May(p: Principal, path: string, action: string)
      reads auth
    {
      Allowed(auth.serviceTokens, auth.issuerRules, p, GitPath(path), action)
    }

    // The events a principal may see, under the rules in force.
    ghost function MaySee(p: Principal): Event -> bool
      reads auth
    {
      var tokens, rules := auth.serviceTokens, auth.issuerRules;
      (ev: Event) => Allowed(tokens, rules, p, GitPath(ev.path), READ)
    }

    // The indexed entries that pass the filters and that a GET by the same principal would
    // be allowed to read, sorted, each once.
    method DocumentList(p: Principal, prefix: string, labelKey: string, labelVal: string) returns (out: seq<DocEntry>)
      requires store.Valid()
      ensures Ascending(out)
      ensures forall e :: e in out <==>
        e.path in store.index.entries && store.index.entries[e.path] == e
        && prefix <= e.path
        && (labelKey == "" || (if labelKey in e.metadata.labels then e.metadata.labels[labelKey] else "") == labelVal)
        && May(p, e.path, "read")
    {
      hide Less, Allowed;
      var items := store.List(prefix, labelKey, labelVal);
      out := [];
      for i := 0 to |items|
        invariant Ascending(out)
        invariant forall e :: e in out <==> e in items[..i] && May(p, e.path, READ)
      {
        var it := items[i];
        assert items[..i + 1] == items[..i] + [it];
        var ok := auth.Authorize(p, GitPath(it.path), READ);
        if !ok { continue; }
        forall e | e in out ensures Less(e.path, it.path) {
          var j :| 0 <= j < i && items[..i][j] == e;
          assert items[j] == e;
        }
        out := out + [it];
      }
      assert items[..|items|] == items;
    }

    method GetDocument(p: Principal, rawPath: string, unreadable: bool) returns (status: int, body: Option<Envelope>)
      requires store.Valid()
      ensures
        var path := TrimPrefix(rawPath, "/");
        if path == "" then status == 404
        else if !May(p, path, "read") then status == 403
        else if !store.ready then status == 500
        else if unreadable then status == 404
        else match Store.GetDocument(store.cfg, store.repo, path)
             case Ok(env) => status == 200 && body == Some(env)
             case Err(e) => status == if e == NotFound then 404 else 500
      ensures status != 200 ==> body == None
    {
      body := None;
      var path := TrimPrefix(rawPath, "/");
      if path == "" { return NOT_FOUND, None; }
      var ok := auth.Authorize(p, GitPath(path), READ);
      if !ok { return FORBIDDEN, None; }
      var res := store.ReadDocument(path, unreadable);
      if res.Err? {
        if res.error == NotFound { return NOT_FOUND, None; }
        return INTERNAL, None;
      }
      return OK, Some(res.value);
    }

    // `req` is None where the body is not valid JSON.
    method PutDocument(p: Principal, rawPath: string, req: Option<PutRequest>, ifMatch: Option<int>,
                       nonce: Nonce, f: Faults)
      returns (status: int, body: Option<Envelope>)
      requires store.Valid()
      modifies store, store.broker
      ensures store.Valid()
      ensures
        var path := TrimPrefix(rawPath, "/");
        var refused := if path == "" then 404
                       else if "system/" <= path && p.kind != "bootstrap" then 403
                       else if !old(May(p, path, "write")) then 403
                       else if req.None? then 400
                       else 200;
        if refused != 200 then status == refused && store.Now() == old(store.Now())
        else
          var file := if f.unreadable then None else old(At(store.repo.worktree, GitPath(path)));
          && (status == 409 <==> Stale(store.cfg.codec, file, Expected(req.value, ifMatch)))
          && (exists res ::
                && Step(store.cfg, old(store.Now()), ApplyOp(PutArgs(p, path, req.value, ifMatch), nonce, f),
                        store.Now(), res)
                && (match res
                    case Ok(env) => status == 200 && body == env
                    case Err(e) => status == if e == Conflict then 409 else 500))
      ensures status == 200 && Lawful(store.cfg) ==>
        var path := TrimPrefix(rawPath, "/");
        && store.repo.remote == store.repo.local == store.servedSHA
        && req.Some? && body.Some? && Store.GetDocument(store.cfg, store.repo, path) == Ok(body.value)
        && Given(body.value, req.value.document, req.value.contentType, p.kind + ":" + p.id)
        && Gives(store.cfg.codec, if f.unreadable then None else old(At(store.repo.worktree, GitPath(path))),
                 Expected(req.value, ifMatch), body.value.metadata.version)
        && Kept(store.cfg, At(store.repo.worktree, GitPath(path)), body.value,
                req.value.encrypt == Some(true)
                || (req.value.encrypt == None && IsSecret(Split(TrimPrefix(path, "/")))))
    {
      hide Step, Given, Gives, Kept, Stale, Split;
      body := None;
      var path := TrimPrefix(rawPath, "/");
      if path == "" { return NOT_FOUND, None; }
      if HasPrefix(path, SYSTEM) && p.kind != "bootstrap" { return FORBIDDEN, None; }
      var ok := auth.Authorize(p, GitPath(path), WRITE);
      if !ok { return FORBIDDEN, None; }
      if req.None? { return BAD_REQUEST, None; }
      var expected := req.value.expected;
      if ifMatch.Some? { expected := ifMatch.value; }
      var enc := DefaultEncryptForPath(path);
      if req.value.encrypt.Some? { enc := req.value.encrypt.value; }
      var args := ApplyArgs(path, req.value.document, req.value.contentType, enc, expected, p.kind + ":" + p.id);
      ghost var s := store.Now();
      var res := store.Apply(args, nonce, f);
      PutIsApply(p, path, req.value, ifMatch);
      ApplyConflicts(store.cfg, s, ApplyOp(args, nonce, f), store.Now(), Outward(res));
      if res.Ok? && Lawful(store.cfg) {
        AppliedDocument(store.cfg, s, ApplyOp(args, nonce, f), store.Now(), Outward(res));
      }
      assert Step(store.cfg, old(store.Now()), ApplyOp(PutArgs(p, path, req.value, ifMatch), nonce, f),
                  store.Now(), Outward(res));
      if res == Err(Conflict) { return CONFLICT, None; }
      if res.Err? { return INTERNAL, None; }
      return OK, Some(res.value);
    }

    method DeleteDocument(p: Principal, rawPath: string, version: int, f: Faults) returns (status: int)
      requires store.Valid()
      modifies store, store.broker
      ensures store.Valid()
      ensures
        var path := TrimPrefix(rawPath, "/");
        var refused := if path == "" then 404 else if !old(May(p, path, "write")) then 403 else 204;
        if refused != 204 then status == refused && store.Now() == old(store.Now())
        else
          var file := if f.unreadable then None else old(At(store.repo.worktree, GitPath(path)));
          && status in {204, 404, 409, 500}
          && (status == 404 <==> file == None)
          && (status == 409 <==> file.Some? && Stale(store.cfg.codec, file, version))
          && (exists res ::
                && Step(store.cfg, old(store.Now()), DeleteOp(path, version, f), store.Now(), res)
                && (status == 204 <==> res.Ok?))
      ensures status == 204 ==>
        && Store.GetDocument(store.cfg, store.repo, TrimPrefix(rawPath, "/")) == Err(NotFound)
        && store.repo.remote == store.repo.local == store.servedSHA
    {
      hide Step, Stale;
      var path := TrimPrefix(rawPath, "/");
      if path == "" { return NOT_FOUND; }
      var ok := auth.Authorize(p, GitPath(path), WRITE);
      if !ok { return FORBIDDEN; }
      ghost var s := store.Now();
      var res := store.Delete(path, version, f);
      assert Step(store.cfg, old(store.Now()), DeleteOp(path, version, f), store.Now(), Plain(res));
      DeleteConflicts(store.cfg, s, DeleteOp(path, version, f), store.Now(), Plain(res));
      if res.Err? {
        if res.error == NotFound { return NOT_FOUND; }
        if res.error == Conflict { return CONFLICT; }
        return INTERNAL;
      }
      return NO_CONTENT;
    }

    // One JSON poll, with no publication between its two reads of the broker.
    method PollChanges(p: Principal, since: int, prefix: string) returns (revision: nat, events: seq<Event>)
      requires store.Valid()
      ensures events == Reply(store.broker.log, since, prefix, MaySee(p))
      ensures forall e :: e in events <==>
        && e in store.broker.log && e.revision > |store.broker.log| - 512 && e.revision > since
        && (prefix == "" || Under(e.path, prefix)) && May(p, e.path, "read")
      ensures revision == |store.broker.log|
    {
      var all := store.broker.Since(since, prefix);
      events := Authorized(p, all);
      forall e ensures e in events <==> e in all && May(p, e.path, READ) { FilterMember(all, MaySee(p), e); }
      revision := store.broker.revision;
    }

    method Authorized(p: Principal, all: seq<Event>) returns (events: seq<Event>)
      ensures events == Filter(all, MaySee(p))
    {
      events := [];
      for i := 0 to |all|
        invariant events == Filter(all[..i], MaySee(p))
      {
        FilterSnoc(all, i, MaySee(p));
        var ok := auth.Authorize(p, GitPath(all[i].path), READ);
        if !ok { continue; }
        events := events + [all[i]];
      }
      assert all[..|all|] == all;
    }

    // The backlog part of an event stream, as bytes.
    method WriteBacklog(codec: Client.EventCodec, p: Principal, since: int, prefix: string) returns (out: string)
      requires store.Valid()
      ensures out == Client.Written(codec, Reply(store.broker.log, since, prefix, MaySee(p)))
    {
      out := "";
      var all := store.broker.Since(since, prefix);
      ghost var shown: seq<Event> := [];
      hide Client.Frame;
      for i := 0 to |all|
        invariant shown == Filter(all[..i], MaySee(p))
        invariant out == Client.Written(codec, shown)
      {
        FilterSnoc(all, i, MaySee(p));
        var ok := auth.Authorize(p, GitPath(all[i].path), READ);
        if !ok { continue; }
        Client.WrittenSnoc(codec, shown, all[i]);
        shown := shown + [all[i]];
        out := out + Client.Frame(codec, all[i]);
      }
      assert all[..|all|] == all;
    }
  }
}
