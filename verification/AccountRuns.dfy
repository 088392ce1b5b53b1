/** One account over a whole run: what its own commands and the callbacks for its own PJSIP id make of it, whatever
    happens to the other accounts in between. */
module AccountRuns {
  import opened Bytes
  import opened EngineAccounts

  /** The strings that pd_acc_add is given. */
  function Strings(p: Profile): seq<string> {
    [p.server, p.sipProxy, p.username, p.authUsername, p.password, p.stunServer,
     if p.domain == "" then p.server else p.domain]
  }

  /** Each of them can be a C string. */
  ghost predicate Passable(p: Profile) {
    forall s :: s in Strings(p) ==> '\0' !in s
  }

  /** A registration that lasts and was answered with 200, or with no code, is registered; a code from 400 on, or any
      code without a time to last, is a failure. */
  ghost predicate SetsState(expires: int, code: int, state: RegState) {
    var registered, refused := expires > 0 && code in [0, 200], code >= 400 || (expires == 0 && code != 0);
    && (state == Registered <==> registered)
    && (state == Failed <==> refused && !registered)
    && (state == Unregistered <==> !refused && !registered)
  }

  /** What a registration callback does to the account that is mapped. */
  lemma CallbackSets(t: Table, pj: int, expires: int, code: int)
    requires pj in t.accMap && t.accMap[pj] in t.accounts
    ensures var u, after := t.accMap[pj], Apply(t, OnRegState(pj, expires, code));
            u in after.accounts && SetsState(expires, code, after.accounts[u].regState)
  {
  }

  /** What one command or callback makes of the account u, which is None before it is created and after it is
      deleted. */
  ghost predicate Becomes(u: string, a: Option<Account>, c: Command, b: Option<Account>) {
    match c
    case Upsert(Some(v), profile) =>
      if v != u then b == a
      else if a.None? then b == Some(Account(profile, Unregistered, None))
      else b == Some(Account(profile, a.value.regState, a.value.pjsipAccId))
    case Register(Some(v), pj) =>
      if v != u || a.None? then b == a
      else if !Passable(a.value.profile) then b == Some(Account(a.value.profile, Registering, None))
      else if pj < 0 then b == Some(Account(a.value.profile, Failed, None))
      else b == Some(Account(a.value.profile, Registering, Some(pj)))
    case Unregister(Some(v)) =>
      if v != u || a.None? then b == a else b == Some(Account(a.value.profile, Unregistered, None))
    case DeleteProfile(Some(v)) => b == if v == u then None else a
    case OnRegState(pj, expires, code) =>
      if a.None? || a.value.pjsipAccId != Some(pj) then b == a
      else
        && b.Some? && SetsState(expires, code, b.value.regState)
        && b.value.profile == a.value.profile && b.value.pjsipAccId == a.value.pjsipAccId
    case _ => b == a
  }

  function Find(t: Table, u: string): Option<Account> {
    if u in t.accounts then Some(t.accounts[u]) else None
  }

  lemma PassableIs(p: Profile)
    ensures Passable(p) <==> !p.HasNul()
  {
    var s := Strings(p);
    if Passable(p) {
      assert s[0] in s && s[1] in s && s[2] in s && s[3] in s && s[4] in s && s[5] in s && s[6] in s;
    }
  }

  lemma StepBecomes(t: Table, c: Command, u: string)
    requires Inverse(t) && !c.Shutdown?
    ensures Becomes(u, Find(t, u), c, Find(Apply(t, c), u))
  {
    hide Passable, Profile.HasNul;
    match c {
      case Register(Some(v), pj) =>
        if v in t.accounts {
          PassableIs(t.accounts[v].profile);
        }
      case OnRegState(pj, expires, code) =>
        if pj in t.accMap && t.accMap[pj] in t.accounts {
          CallbackSets(t, pj, expires, code);
        }
      case _ =>
    }
  }

  /** In every run between a start and a shutdown, where PJSIP gives out no id that is still live, an account changes
      as its own commands and its own callbacks make it change, and with nothing else; no account is there at first. */
  lemma EveryRunBecomes(u: string, run: seq<Command>, c: Command)
    requires AllFresh(run) && Shutdown !in run && !c.Shutdown?
    ensures Becomes(u, Find(After(run), u), c, Find(After(run + [c]), u)) && Find(After([]), u) == None
  {
    hide Becomes, Apply, Inverse;
    EveryRunKeepsMap(run);
    StepBecomes(After(run), c, u);
    assert (run + [c])[..|run|] == run;
  }

  /** The codes: no uuid; no such account; a registration that leaves the account without an id; and success. */
  lemma CodeMeans(t: Table, c: Command)
    requires Inverse(t) && !c.OnRegState? && !c.Shutdown?
    ensures CodeOf(t, c) == InvalidJson <==> c.uuid.None?
    ensures CodeOf(t, c) == NotFound <==> c.uuid.Some? && !c.Upsert? && c.uuid.value !in t.accounts
    ensures CodeOf(t, c) == InternalError <==>
              && c.Register? && c.uuid.Some? && c.uuid.value in t.accounts
              && Apply(t, c).accounts[c.uuid.value].pjsipAccId == None
  {
  }
}
