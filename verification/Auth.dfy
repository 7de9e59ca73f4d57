// pkg/auth/auth.go: who may read or write which path.
module Auth {
  import opened Wrappers
  import opened Text
  import opened Documents

  const READ := "read"
  const WRITE := "write"

  datatype Principal = Principal(kind: string, id: string, groups: seq<string>)

  datatype ClaimReq = ClaimReq(authenticated: bool, groups: seq<string>)

  datatype IssuerRule = IssuerRule(paths: seq<string>, read: ClaimReq, write: ClaimReq)

  datatype IssuerConfig = IssuerConfig(name: string, rules: seq<IssuerRule>)

  datatype TokenRecord = TokenRecord(id: string, paths: seq<string>, actions: seq<string>)

  predicate PathMatch(path: string, pattern: string) {
    var pat, p := TrimPrefix(pattern, DATA), TrimPrefix(path, DATA);
    if pat == "**" || pat == "*" then true
    else if HasSuffix(pat, "/**") then Under(p, TrimSuffix(pat, "/**"))
    else p == pat
  }

  // A pattern is a wildcard, or its last segment is ** and the others begin the path, or it
  // is the path.
  predicate Covers(pattern: seq<string>, path: seq<string>) {
    || pattern == ["**"] || pattern == ["*"]
    || (if |pattern| > 1 && pattern[|pattern| - 1] == "**" then pattern[..|pattern| - 1] <= path else pattern == path)
  }

  // A first segment data is dropped.
  function InData(path: seq<string>): seq<string> {
    if |path| > 1 && path[0] == "data" then path[1..] else path
  }

  // The string tests are a comparison of segments.
  lemma PathMatchBySegments(path: string, pattern: string)
    ensures PathMatch(path, pattern) <==> Covers(InData(Split(pattern)), InData(Split(path)))
  {
    hide Split, Covers, InData, TrimPrefix, TrimSuffix, HasSuffix, Under;
    TrimIsInData(pattern);
    TrimIsInData(path);
    var pat, p := TrimPrefix(pattern, DATA), TrimPrefix(path, DATA);
    WholePattern(pat, p);
    if HasSuffix(pat, "/**") {
      SubtreePattern(pat, p);
    } else if |Split(pat)| > 1 && Split(pat)[|Split(pat)| - 1] == "**" {
      EndsInStars(pat);
    }
    CoversCases(Split(pat), Split(p));
  }

  lemma CoversCases(pattern: seq<string>, path: seq<string>)
    ensures pattern == ["**"] || pattern == ["*"] ==> Covers(pattern, path)
    ensures pattern != ["**"] && pattern != ["*"] && |pattern| > 1 && pattern[|pattern| - 1] == "**" ==>
              (Covers(pattern, path) <==> pattern[..|pattern| - 1] <= path)
    ensures pattern != ["**"] && pattern != ["*"] && !(|pattern| > 1 && pattern[|pattern| - 1] == "**") ==>
              (Covers(pattern, path) <==> pattern == path)
  {
  }

  lemma WholePattern(pat: string, p: string)
    ensures pat == "**" <==> Split(pat) == ["**"]
    ensures pat == "*" <==> Split(pat) == ["*"]
    ensures pat == p <==> Split(pat) == Split(p)
  {
    hide Split;
    SplitName("**");
    SplitName("*");
    if Split(pat) == ["**"] { SplitInjective(pat, "**"); }
    if Split(pat) == ["*"] { SplitInjective(pat, "*"); }
    if Split(pat) == Split(p) { SplitInjective(pat, p); }
  }

  lemma SubtreePattern(pat: string, p: string)
    requires HasSuffix(pat, "/**")
    ensures
      var segments := Split(pat);
      && |segments| > 1 && segments[|segments| - 1] == "**"
      && (Under(p, TrimSuffix(pat, "/**")) <==> segments[..|segments| - 1] <= Split(p))
  {
    hide Split, Under;
    var dir := TrimSuffix(pat, "/**");
    assert pat == dir + "/" + "**";
    SplitSnoc(dir, "**");
    assert (Split(dir) + ["**"])[..|Split(dir)|] == Split(dir);
    UnderIsSegmentPrefix(p, dir);
  }

  lemma TrimIsInData(path: string)
    ensures Split(TrimPrefix(path, DATA)) == InData(Split(path))
  {
    PrefixIsSegment(path, "data");
    assert "data" + "/" == DATA;
  }

  lemma {:induction false} EndsInStars(s: string)
    requires |Split(s)| > 1 && Split(s)[|Split(s)| - 1] == "**"
    ensures HasSuffix(s, "/**")
  {
    var rest := Split(s[1..]);
    if s[0] == '/' && |rest| == 1 {
      SplitName("**");
      SplitInjective(s[1..], "**");
      assert s == "/" + "**";
    } else {
      assert Split(s)[|Split(s)| - 1] == rest[|rest| - 1];
      EndsInStars(s[1..]);
      assert s[|s| - 3..] == s[1..][|s| - 4..];
    }
  }

  predicate ActionPermitted(tr: TokenRecord, action: string) {
    tr.actions == [] || action in tr.actions
  }

  // For tokens in general: some record of the id has a matching pattern, and no record of the
  // id up to that one forbids the action.
  ghost predicate TokenAllows(tokens: seq<TokenRecord>, id: string, apiPath: string, action: string) {
    exists i :: 0 <= i < |tokens| && tokens[i].id == id
      && (exists pat :: pat in tokens[i].paths && PathMatch(apiPath, TrimPrefix(pat, DATA)))
      && (forall j :: 0 <= j <= i && tokens[j].id == id ==> ActionPermitted(tokens[j], action))
  }

  // The declarative reading: some record, some pattern, some permitted action.
  ghost predicate SomeRecordAllows(tokens: seq<TokenRecord>, id: string, apiPath: string, action: string) {
    exists i :: 0 <= i < |tokens| && tokens[i].id == id && ActionPermitted(tokens[i], action)
      && exists pat :: pat in tokens[i].paths && PathMatch(apiPath, TrimPrefix(pat, DATA))
  }

  function Requirement(rule: IssuerRule, action: string): ClaimReq {
    if action == WRITE then rule.write else rule.read
  }

  ghost predicate Meets(p: Principal, req: ClaimReq) {
    req.authenticated || exists g :: g in req.groups && g in p.groups
  }

  predicate RuleMatches(apiPath: string, pat: string) {
    PathMatch(DATA + apiPath, pat) || PathMatch(apiPath, TrimPrefix(pat, DATA))
  }

  ghost predicate RuleAllows(rules: seq<IssuerRule>, p: Principal, apiPath: string, action: string) {
    exists rule :: rule in rules && Meets(p, Requirement(rule, action))
      && exists pat :: pat in rule.paths && RuleMatches(apiPath, pat)
  }

  ghost predicate Allowed(tokens: seq<TokenRecord>, rules: seq<IssuerRule>,
                          p: Principal, gitPath: string, action: string)
  {
    var apiPath := TrimPrefix(TrimPrefix(gitPath, "/"), DATA);
    if p.kind == "bootstrap" then true
    else if p.kind == "token" then TokenAllows(tokens, p.id, apiPath, action)
    else RuleAllows(rules, p, apiPath, action)
  }

  ghost predicate UniqueIds(tokens: seq<TokenRecord>) {
    forall i, j :: 0 <= i < j < |tokens| ==> tokens[i].id != tokens[j].id
  }

  // With unique ids the early exits do not matter.
  lemma UniqueIdsAllow(tokens: seq<TokenRecord>, id: string, apiPath: string, action: string)
    requires UniqueIds(tokens)
    ensures TokenAllows(tokens, id, apiPath, action) <==> SomeRecordAllows(tokens, id, apiPath, action)
  {
  }

  // In general the two differ exactly when a record of the id that forbids the action stands
  // before every record that would allow it.
  lemma EarlierRecordForbids(tokens: seq<TokenRecord>, id: string, apiPath: string, action: string)
    ensures TokenAllows(tokens, id, apiPath, action) <==>
            SomeRecordAllows(tokens, id, apiPath, action)
            && !exists j :: 0 <= j < |tokens| && tokens[j].id == id && !ActionPermitted(tokens[j], action)
                         && !SomeRecordAllows(tokens[..j], id, apiPath, action)
  {
    if TokenAllows(tokens, id, apiPath, action) {
      var i :| 0 <= i < |tokens| && tokens[i].id == id
        && (exists pat :: pat in tokens[i].paths && PathMatch(apiPath, TrimPrefix(pat, DATA)))
        && (forall j :: 0 <= j <= i && tokens[j].id == id ==> ActionPermitted(tokens[j], action));
      forall j | i < j < |tokens| ensures SomeRecordAllows(tokens[..j], id, apiPath, action) {
        assert tokens[..j][i] == tokens[i];
      }
    } else if SomeRecordAllows(tokens, id, apiPath, action) {
      var i := FirstAllowing(tokens, id, apiPath, action);
      var j :| 0 <= j <= i && tokens[j].id == id && !ActionPermitted(tokens[j], action);
      assert !SomeRecordAllows(tokens[..j], id, apiPath, action);
    }
  }

  lemma FirstAllowing(tokens: seq<TokenRecord>, id: string, apiPath: string, action: string) returns (i: nat)
    requires SomeRecordAllows(tokens, id, apiPath, action)
    ensures i < |tokens| && tokens[i].id == id && ActionPermitted(tokens[i], action)
    ensures exists pat :: pat in tokens[i].paths && PathMatch(apiPath, TrimPrefix(pat, DATA))
    ensures forall j :: 0 <= j <= i ==> !SomeRecordAllows(tokens[..j], id, apiPath, action)
  {
    i :| 0 <= i < |tokens| && tokens[i].id == id && ActionPermitted(tokens[i], action)
      && exists pat :: pat in tokens[i].paths && PathMatch(apiPath, TrimPrefix(pat, DATA));
    while exists j :: 0 <= j <= i && SomeRecordAllows(tokens[..j], id, apiPath, action)
      invariant i < |tokens| && tokens[i].id == id && ActionPermitted(tokens[i], action)
      invariant exists pat :: pat in tokens[i].paths && PathMatch(apiPath, TrimPrefix(pat, DATA))
      decreases i
    {
      var j :| 0 <= j <= i && SomeRecordAllows(tokens[..j], id, apiPath, action);
      var k :| 0 <= k < j && tokens[..j][k].id == id && ActionPermitted(tokens[..j][k], action)
        && exists pat :: pat in tokens[..j][k].paths && PathMatch(apiPath, TrimPrefix(pat, DATA));
      i := k;
    }
  }

  // ---------- Who may do what, by segments ----------

  // A pattern may be written with the data segment, even twice, and the path with it once.
  predicate PatternCovers(pat: string, path: seq<string>) {
    Covers(InData(InData(Split(pat))), InData(path))
  }

  ghost predicate Shared(wanted: seq<string>, had: seq<string>) {
    exists g :: g in wanted && g in had
  }

  // The decision is about this path, whatever tree its file is in.
  lemma ApiPathOf(path: string)
    ensures TrimPrefix(TrimPrefix(GitPath(path), "/"), DATA) == TrimPrefix(path, "/")
    ensures path == "" || path[0] != '/' ==> TrimPrefix(path, "/") == path
  {
    var q := TrimPrefix(path, "/");
    assert (DATA + q)[0] == 'd' && SYSTEM[0] == 's' && DATA[0] == 'd';
    TrimPrefixInverse(q, DATA);
  }

  // Records and rules read their patterns alike: of the two tests for a rule, the one that
  // trims more covers the other.
  lemma Patterns(apiPath: string, pat: string)
    ensures PathMatch(apiPath, TrimPrefix(pat, DATA)) <==> PatternCovers(pat, Split(apiPath))
    ensures RuleMatches(apiPath, pat) <==> PatternCovers(pat, Split(apiPath))
  {
    hide PathMatch;
    PathMatchBySegments(apiPath, TrimPrefix(pat, DATA));
    PathMatchBySegments(DATA + apiPath, pat);
    TrimIsInData(pat);
    TrimIsInData(DATA + apiPath);
    TrimPrefixInverse(apiPath, DATA);
  }

  lemma RulesBySegments(rules: seq<IssuerRule>, p: Principal, path: string, action: string)
    ensures RuleAllows(rules, p, path, action) <==>
            exists rule, pat :: rule in rules && pat in rule.paths && PatternCovers(pat, Split(path))
                             && Meets(p, Requirement(rule, action))
  {
    hide RuleMatches, PatternCovers, Meets, Requirement;
    forall pat: string ensures RuleMatches(path, pat) <==> PatternCovers(pat, Split(path)) {
      Patterns(path, pat);
    }
    if RuleAllows(rules, p, path, action) {
      var rule :| rule in rules && Meets(p, Requirement(rule, action))
        && exists pat :: pat in rule.paths && RuleMatches(path, pat);
      var pat :| pat in rule.paths && RuleMatches(path, pat);
      assert PatternCovers(pat, Split(path));
    }
    if rule, pat :| rule in rules && pat in rule.paths && PatternCovers(pat, Split(path))
                    && Meets(p, Requirement(rule, action)) {
      assert pat in rule.paths && RuleMatches(path, pat);
    }
  }

  lemma NeededFor(p: Principal, rule: IssuerRule)
    ensures Meets(p, Requirement(rule, "read")) <==> rule.read.authenticated || Shared(rule.read.groups, p.groups)
    ensures Meets(p, Requirement(rule, "write")) <==> rule.write.authenticated || Shared(rule.write.groups, p.groups)
  {
  }

  // A user signed in through an issuer may read what a rule with a covering pattern gives to
  // everybody signed in, or to one of the user's groups, in its read part; and write what one
  // gives in its write part.
  lemma IssuerRulesDecide(tokens: seq<TokenRecord>, rules: seq<IssuerRule>, p: Principal, path: string)
    requires p.kind != "bootstrap" && p.kind != "token" && (path == "" || path[0] != '/')
    ensures Allowed(tokens, rules, p, GitPath(path), "read") <==>
            exists rule, pat :: rule in rules && pat in rule.paths && PatternCovers(pat, Split(path))
                             && (rule.read.authenticated || Shared(rule.read.groups, p.groups))
    ensures Allowed(tokens, rules, p, GitPath(path), "write") <==>
            exists rule, pat :: rule in rules && pat in rule.paths && PatternCovers(pat, Split(path))
                             && (rule.write.authenticated || Shared(rule.write.groups, p.groups))
  {
    hide RuleAllows, PatternCovers, Meets, Requirement, Shared, Split, GitPath, TrimPrefix;
    ApiPathOf(path);
    forall rule: IssuerRule { NeededFor(p, rule); }
    RulesBySegments(rules, p, path, READ);
    RulesBySegments(rules, p, path, WRITE);
  }

  // A service token may do what some record of its id covers, if neither that record nor one
  // of the id before it names actions without this one.
  lemma TokenRecordsDecide(tokens: seq<TokenRecord>, rules: seq<IssuerRule>, p: Principal, path: string, action: string)
    requires p.kind == "token" && (path == "" || path[0] != '/')
    ensures Allowed(tokens, rules, p, GitPath(path), action) <==>
            exists i :: 0 <= i < |tokens| && tokens[i].id == p.id
              && (exists pat :: pat in tokens[i].paths && PatternCovers(pat, Split(path)))
              && (forall j :: 0 <= j <= i && tokens[j].id == p.id ==>
                    tokens[j].actions == [] || action in tokens[j].actions)
  {
    hide PathMatch, PatternCovers;
    ApiPathOf(path);
    forall pat: string ensures PathMatch(path, TrimPrefix(pat, DATA)) <==> PatternCovers(pat, Split(path)) {
      Patterns(path, pat);
    }
  }

  // The administrator of the bootstrap token may do everything.
  lemma BootstrapMay(tokens: seq<TokenRecord>, rules: seq<IssuerRule>, p: Principal, gitPath: string, action: string)
    requires p.kind == "bootstrap"
    ensures Allowed(tokens, rules, p, gitPath, action)
  {
  }

  // Two records of one id: the second would allow the write, the first forbids it.
  lemma DuplicateIdForbids()
    ensures
      var tokens := [TokenRecord("t", ["**"], [READ]), TokenRecord("t", ["**"], [WRITE])];
      SomeRecordAllows(tokens, "t", "a", WRITE) && !TokenAllows(tokens, "t", "a", WRITE)
  {
    var tokens := [TokenRecord("t", ["**"], [READ]), TokenRecord("t", ["**"], [WRITE])];
    assert tokens[1].id == "t" && ActionPermitted(tokens[1], WRITE) && "**" in tokens[1].paths;
    assert PathMatch("a", TrimPrefix("**", DATA));
    assert tokens[0].id == "t" && !ActionPermitted(tokens[0], WRITE);
  }

  // For a system document the rules decide as for any other path, with its API path as it is,
  // and as for the data file of the same name; nothing asks for an administrator.
  lemma SystemPathsAreOrdinary(tokens: seq<TokenRecord>, rules: seq<IssuerRule>, p: Principal, path: string,
                               action: string)
    requires HasPrefix(path, SYSTEM)
    ensures Allowed(tokens, rules, p, GitPath(path), action) <==>
            || p.kind == "bootstrap"
            || (if p.kind == "token" then TokenAllows(tokens, p.id, path, action)
                else RuleAllows(rules, p, path, action))
    ensures Allowed(tokens, rules, p, GitPath(path), action) <==> Allowed(tokens, rules, p, DATA + path, action)
  {
    hide TokenAllows, RuleAllows;
    assert path[0] == SYSTEM[0] == 's' && DATA[0] == 'd';
    assert (DATA + path)[0] == 'd';
    TrimPrefixInverse(path, DATA);
  }

  lemma TokenReachesSystem()
    ensures
      var tokens, p := [TokenRecord("t", ["**"], [])], Principal("token", "t", []);
      && Allowed(tokens, [], p, GitPath("system/tokens.yaml"), READ)
      && Allowed(tokens, [], p, GitPath("system/tokens.yaml"), WRITE)
  {
    var tokens, p, path := [TokenRecord("t", ["**"], [])], Principal("token", "t", []), "system/tokens.yaml";
    assert path[..|SYSTEM|] == SYSTEM;
    assert "**" in tokens[0].paths && PathMatch(path, TrimPrefix("**", DATA));
    SystemPathsAreOrdinary(tokens, [], p, path, READ);
    SystemPathsAreOrdinary(tokens, [], p, path, WRITE);
  }

  function Flatten(issuers: seq<IssuerConfig>): seq<IssuerRule> {
    if issuers == [] then [] else Flatten(issuers[..|issuers| - 1]) + issuers[|issuers| - 1].rules
  }

  lemma {:induction false} FlattenMember(issuers: seq<IssuerConfig>, rule: IssuerRule)
    ensures rule in Flatten(issuers) <==> exists i :: 0 <= i < |issuers| && rule in issuers[i].rules
  {
    if issuers != [] {
      var front, last := issuers[..|issuers| - 1], issuers[|issuers| - 1];
      FlattenMember(front, rule);
      assert last == issuers[|issuers| - 1];
      if i :| 0 <= i < |issuers| && rule in issuers[i].rules {
        assert i < |front| ==> front[i] == issuers[i];
      }
    }
  }

  class Engine {
    var serviceTokens: seq<TokenRecord>
    var issuers: seq<IssuerConfig>
    var issuerRules: seq<IssuerRule>

    constructor ()
      ensures serviceTokens == [] && issuers == [] && issuerRules == []
    {
      serviceTokens, issuers, issuerRules := [], [], [];
    }

    // `parsed` is None where the YAML library reports an error; the old records stay.
    method LoadTokens(parsed: Option<seq<TokenRecord>>)
      modifies this`serviceTokens
      ensures serviceTokens == if parsed.Some? then parsed.value else old(serviceTokens)
    {
      if parsed.None? { return; }
      serviceTokens := parsed.value;
    }

    method LoadIssuers(parsed: Option<seq<IssuerConfig>>)
      modifies this`issuers, this`issuerRules
      ensures parsed.None? ==> issuers == old(issuers) && issuerRules == old(issuerRules)
      ensures parsed.Some? ==> issuers == parsed.value
      ensures parsed.Some? ==> forall rule ::
        rule in issuerRules <==> exists i :: 0 <= i < |issuers| && rule in issuers[i].rules
    {
      if parsed.None? { return; }
      issuers := parsed.value;
      var rules := [];
      for i := 0 to |issuers|
        invariant rules == Flatten(issuers[..i])
      {
        assert issuers[..i + 1][..i] == issuers[..i];
        rules := rules + issuers[i].rules;
      }
      assert issuers[..|issuers|] == issuers;
      issuerRules := rules;
      forall rule ensures rule in issuerRules <==> exists i :: 0 <= i < |issuers| && rule in issuers[i].rules {
        FlattenMember(issuers, rule);
      }
    }

    method Authorize(p: Principal, gitPath: string, action: string) returns (ok: bool)
      ensures ok <==> Allowed(serviceTokens, issuerRules, p, gitPath, action)
    {
      var path := TrimPrefix(gitPath, "/");
      var apiPath := TrimPrefix(path, DATA);
      if p.kind == "bootstrap" { return true; }
      if p.kind == "token" {
        ok := AuthorizeToken(p.id, apiPath, action);
        return;
      }
      for i := 0 to |issuerRules|
        invariant !RuleAllows(issuerRules[..i], p, apiPath, action)
      {
        var rule := issuerRules[i];
        for k := 0 to |rule.paths|
          invariant Meets(p, Requirement(rule, action)) ==>
            forall m :: 0 <= m < k ==> !RuleMatches(apiPath, rule.paths[m])
        {
          var pat := rule.paths[k];
          if !PathMatch(DATA + apiPath, pat) && !PathMatch(apiPath, TrimPrefix(pat, DATA)) { continue; }
          assert RuleMatches(apiPath, pat) && pat in rule.paths && rule in issuerRules;
          var req := rule.read;
          if action == WRITE { req := rule.write; }
          if req.authenticated { return true; }
          var shared := Share(req.groups, p.groups);
          if shared { return true; }
        }
        assert issuerRules[..i + 1] == issuerRules[..i] + [rule];
      }
      assert issuerRules[..|issuerRules|] == issuerRules;
      ok := false;
    }

    method Share(wanted: seq<string>, had: seq<string>) returns (ok: bool)
      ensures ok <==> exists g :: g in wanted && g in had
    {
      for i := 0 to |wanted|
        invariant forall g :: g in wanted[..i] ==> g !in had
      {
        for j := 0 to |had|
          invariant wanted[i] !in had[..j]
        {
          if wanted[i] == had[j] {
            assert wanted[i] in wanted && had[j] in had;
            return true;
          }
        }
        assert had[..|had|] == had;
      }
      assert wanted[..|wanted|] == wanted;
      ok := false;
    }

    method AuthorizeToken(id: string, apiPath: string, action: string) returns (ok: bool)
      ensures ok <==> TokenAllows(serviceTokens, id, apiPath, action)
    {
      hide PathMatch, ActionPermitted;
      for i := 0 to |serviceTokens|
        invariant forall j :: 0 <= j < i && serviceTokens[j].id == id ==>
          && ActionPermitted(serviceTokens[j], action)
          && forall pat :: pat in serviceTokens[j].paths ==> !PathMatch(apiPath, TrimPrefix(pat, DATA))
      {
        var tr := serviceTokens[i];
        if tr.id != id { continue; }
        var permitted := TokenAllowsAction(tr, action);
        if !permitted { return false; }
        for k := 0 to |tr.paths|
          invariant forall pat :: pat in tr.paths[..k] ==> !PathMatch(apiPath, TrimPrefix(pat, DATA))
        {
          if PathMatch(apiPath, TrimPrefix(tr.paths[k], DATA)) {
            assert tr.paths[k] in tr.paths;
            return true;
          }
        }
        assert tr.paths[..|tr.paths|] == tr.paths;
      }
      ok := false;
    }

    method TokenAllowsAction(tr: TokenRecord, action: string) returns (ok: bool)
      ensures ok <==> ActionPermitted(tr, action)
    {
      if |tr.actions| == 0 { return true; }
      for i := 0 to |tr.actions|
        invariant action !in tr.actions[..i]
      {
        if tr.actions[i] == action { return true; }
      }
      assert tr.actions[..|tr.actions|] == tr.actions;
      ok := false;
    }
  }
}
