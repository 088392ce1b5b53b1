/** The engine's accounts and the map from PJSIP account ids back to them, one command or callback at a time. */
module EngineAccounts {
  import opened Bytes

  datatype RegState = Unregistered | Registering | Registered | Failed

  /** The settings that become C strings before pd_acc_add is called. */
  datatype Profile = Profile(server: string, sipProxy: string, username: string, authUsername: string, domain: string,
                             password: string, stunServer: string)
  {
    predicate HasNul() {
      '\0' in server || '\0' in sipProxy || '\0' in username || '\0' in authUsername || '\0' in password
      || '\0' in stunServer || '\0' in (if domain != [] then domain else server)
    }
  }

  datatype Account = Account(profile: Profile, regState: RegState, pjsipAccId: Option<int>)

  datatype ErrorCode = Ok | InvalidJson | NotFound | InternalError

  /** ACCOUNTS, PJSIP_ACC_MAP, and the accounts that PJSIP itself holds. */
  datatype Table = Table(accounts: map<string, Account>, accMap: map<int, string>, live: set<int>)

  /** A uuid is None where the payload has none; pj is what pd_acc_add returns, if it is called. */
  datatype Command =
    | Upsert(uuid: Option<string>, profile: Profile)
    | Register(uuid: Option<string>, pj: int)
    | Unregister(uuid: Option<string>)
    | DeleteProfile(uuid: Option<string>)
    | OnRegState(pj: int, expires: int, statusCode: int)
    | Shutdown

  function StateOf(expires: int, statusCode: int): RegState {
    if expires > 0 && (statusCode == 200 || statusCode == 0) then Registered
    else if statusCode >= 400 || (expires == 0 && statusCode != 0) then Failed
    else Unregistered
  }

  /** pd_acc_remove and the removal from PJSIP_ACC_MAP. */
  function Released(t: Table, id: Option<int>): Table {
    if id.None? then t else t.(accMap := t.accMap - {id.value}, live := t.live - {id.value})
  }

  /** The account without its PJSIP id, which is released. */
  function Detached(t: Table, u: string, state: RegState): Table
    requires u in t.accounts
  {
    var a := t.accounts[u];
    Released(t.(accounts := t.accounts[u := a.(regState := state, pjsipAccId := None)]), a.pjsipAccId)
  }

  /** pd_acc_add is called for the account, and returned pj. */
  function Added(t: Table, u: string, pj: int): Table
    requires u in t.accounts
  {
    var a := t.accounts[u];
    if pj < 0 then t.(accounts := t.accounts[u := a.(regState := Failed)])
    else Table(t.accounts[u := a.(pjsipAccId := Some(pj))], t.accMap[pj := u], t.live + {pj})
  }

  function Apply(t: Table, c: Command): Table {
    match c
    case Upsert(Some(u), profile) =>
      var a := if u in t.accounts then t.accounts[u].(profile := profile) else Account(profile, Unregistered, None);
      t.(accounts := t.accounts[u := a])
    case Register(Some(u), pj) =>
      if u !in t.accounts then t
      else
        var detached := Detached(t, u, Registering);
        if t.accounts[u].profile.HasNul() then detached else Added(detached, u, pj)
    case Unregister(Some(u)) => if u !in t.accounts then t else Detached(t, u, Unregistered)
    case DeleteProfile(Some(u)) =>
      if u !in t.accounts then t
      else Released(t.(accounts := t.accounts - {u}), t.accounts[u].pjsipAccId)
    case OnRegState(pj, expires, statusCode) =>
      if pj !in t.accMap || t.accMap[pj] !in t.accounts then t
      else
        var u := t.accMap[pj];
        t.(accounts := t.accounts[u := t.accounts[u].(regState := StateOf(expires, statusCode))])
    case Shutdown => t.(accMap := map[], live := {})
    case _ => t
  }

  /** What a command answers; the callback and the shutdown answer nothing. */
  function CodeOf(t: Table, c: Command): ErrorCode
    requires !c.OnRegState? && !c.Shutdown?
  {
    if c.uuid.None? then InvalidJson
    else if c.Upsert? then Ok
    else if c.uuid.value !in t.accounts then NotFound
    else if c.Register? && (t.accounts[c.uuid.value].profile.HasNul() || c.pj < 0) then InternalError
    else Ok
  }

  // ----- the commands as the engine runs them -----

  class Engine {
    var accounts: map<string, Account>
    var accMap: map<int, string>
    var live: set<int>

    ghost function Now(): Table
      reads this
    {
      Table(accounts, accMap, live)
    }

    constructor ()
      ensures Now() == Table(map[], map[], {})
    {
      accounts, accMap, live := map[], map[], {};
    }

    method AccountUpsert(uuid: Option<string>, profile: Profile) returns (code: ErrorCode)
      modifies this
      ensures Now() == Apply(old(Now()), Upsert(uuid, profile)) && code == CodeOf(old(Now()), Upsert(uuid, profile))
    {
      if uuid.None? {
        return InvalidJson;
      }
      var u := uuid.value;
      if u in accounts {
        accounts := accounts[u := accounts[u].(profile := profile)];
      } else {
        accounts := accounts[u := Account(profile, Unregistered, None)];
      }
      code := Ok;
    }

    /** pd_acc_remove, and the removal from the map, where there is an id. */
    method Release(id: Option<int>)
      modifies this`accMap, this`live
      ensures Now() == Released(old(Now()), id)
    {
      if id.Some? {
        live := live - {id.value};
        accMap := accMap - {id.value};
      }
    }

    method AccountRegister(uuid: Option<string>, pj: int) returns (code: ErrorCode)
      modifies this
      ensures Now() == Apply(old(Now()), Register(uuid, pj)) && code == CodeOf(old(Now()), Register(uuid, pj))
    {
      if uuid.None? {
        return InvalidJson;
      }
      var u := uuid.value;
      if u !in accounts {
        return NotFound;
      }
      var snapshot := accounts[u].profile;
      var oldId := accounts[u].pjsipAccId;
      accounts := accounts[u := accounts[u].(pjsipAccId := None, regState := Registering)];
      Release(oldId);
      if snapshot.HasNul() {
        return InternalError;
      }
      if pj < 0 {
        accounts := accounts[u := accounts[u].(regState := Failed)];
        return InternalError;
      }
      live := live + {pj};
      accounts := accounts[u := accounts[u].(pjsipAccId := Some(pj))];
      accMap := accMap[pj := u];
      code := Ok;
    }

    method AccountUnregister(uuid: Option<string>) returns (code: ErrorCode)
      modifies this
      ensures Now() == Apply(old(Now()), Unregister(uuid)) && code == CodeOf(old(Now()), Unregister(uuid))
    {
      if uuid.None? {
        return InvalidJson;
      }
      var u := uuid.value;
      if u !in accounts {
        return NotFound;
      }
      var id := accounts[u].pjsipAccId;
      accounts := accounts[u := accounts[u].(pjsipAccId := None, regState := Unregistered)];
      Release(id);
      code := Ok;
    }

    method AccountDeleteProfile(uuid: Option<string>) returns (code: ErrorCode)
      modifies this
      ensures Now() == Apply(old(Now()), DeleteProfile(uuid)) && code == CodeOf(old(Now()), DeleteProfile(uuid))
    {
      if uuid.None? {
        return InvalidJson;
      }
      var u := uuid.value;
      if u !in accounts {
        return NotFound;
      }
      var id := accounts[u].pjsipAccId;
      accounts := accounts - {u};
      Release(id);
      code := Ok;
    }

    method RegistrationCallback(pj: int, expires: int, statusCode: int)
      modifies this
      ensures Now() == Apply(old(Now()), OnRegState(pj, expires, statusCode))
    {
      if pj !in accMap {
        return;
      }
      var u := accMap[pj];
      if u in accounts {
        accounts := accounts[u := accounts[u].(regState := StateOf(expires, statusCode))];
      }
    }

    method EngineShutdown()
      modifies this
      ensures Now() == Apply(old(Now()), Shutdown)
    {
      accMap := map[];
      live := {};
    }
  }

  // ----- the map and the accounts -----

  /** Every entry leads to the account that has this PJSIP id, and PJSIP holds exactly the mapped ids. */
  predicate MapOwned(t: Table) {
    && t.accMap.Keys == t.live
    && forall pj :: pj in t.accMap ==>
         t.accMap[pj] in t.accounts && t.accounts[t.accMap[pj]].pjsipAccId == Some(pj)
  }

  /** Every account's PJSIP id is mapped to it; only an account with an id is registered. */
  predicate IdsMapped(t: Table) {
    forall u :: u in t.accounts ==>
      var a := t.accounts[u];
      && (a.pjsipAccId.Some? ==> a.pjsipAccId.value in t.accMap && t.accMap[a.pjsipAccId.value] == u)
      && (a.regState == Registered ==> a.pjsipAccId.Some?)
  }

  predicate Inverse(t: Table) {
    MapOwned(t) && IdsMapped(t)
  }

  /** The command gets as far as pd_acc_add. */
  predicate CallsAdd(t: Table, c: Command) {
    c.Register? && c.uuid.Some? && c.uuid.value in t.accounts && !t.accounts[c.uuid.value].profile.HasNul()
  }

  /** pd_acc_add fails or returns an id that is not live; the account's own old id has been released before. */
  predicate Fresh(t: Table, c: Command) {
    CallsAdd(t, c) ==> c.pj < 0 || c.pj !in t.live || t.accounts[c.uuid.value].pjsipAccId == Some(c.pj)
  }

  lemma DetachedKeeps(t: Table, u: string, state: RegState)
    requires u in t.accounts && MapOwned(t) && state != Registered
    ensures MapOwned(Detached(t, u, state))
    ensures IdsMapped(t) ==> IdsMapped(Detached(t, u, state))
  {
  }

  lemma DeleteKeeps(t: Table, u: string)
    requires MapOwned(t)
    ensures MapOwned(Apply(t, DeleteProfile(Some(u))))
    ensures IdsMapped(t) ==> IdsMapped(Apply(t, DeleteProfile(Some(u))))
  {
  }

  lemma AddedKeeps(t: Table, u: string, pj: int)
    requires u in t.accounts && MapOwned(t) && t.accounts[u].pjsipAccId == None
    ensures pj < 0 || pj !in t.live ==> MapOwned(Added(t, u, pj)) && (IdsMapped(t) ==> IdsMapped(Added(t, u, pj)))
    ensures pj >= 0 && pj in t.live ==> !IdsMapped(Added(t, u, pj))
  {
    if pj >= 0 && pj in t.live {
      var other := t.accMap[pj];
      assert Added(t, u, pj).accounts[other].pjsipAccId == Some(pj);
    }
  }

  /** Registering keeps the map the inverse of the accounts exactly when pd_acc_add returns no live id. */
  lemma RegisterKeeps(t: Table, c: Command)
    requires c.Register? && MapOwned(t)
    ensures Fresh(t, c) ==> MapOwned(Apply(t, c))
    ensures IdsMapped(t) ==> (Inverse(Apply(t, c)) <==> Fresh(t, c))
  {
    hide Added, Detached, MapOwned, IdsMapped;
    if c.uuid.Some? && c.uuid.value in t.accounts {
      var u := c.uuid.value;
      var detached := Detached(t, u, Registering);
      DetachedKeeps(t, u, Registering);
      DetachedIs(t, u, Registering);
      if CallsAdd(t, c) {
        AddedKeeps(detached, u, c.pj);
        assert c.pj in detached.live <==> c.pj in t.live && t.accounts[u].pjsipAccId != Some(c.pj);
      }
    }
  }

  /** An id that PJSIP gives out twice: both accounts have it, and the map leads to the second only. */
  lemma LiveIdTwice(t: Table, first: string, second: string, pj: nat)
    requires Inverse(t) && first in t.accounts && second in t.accounts && first != second
    requires t.accounts[first].pjsipAccId == Some(pj) && !t.accounts[second].profile.HasNul()
    ensures var r := Apply(t, Register(Some(second), pj));
            && r.accounts[first].pjsipAccId == r.accounts[second].pjsipAccId == Some(pj)
            && r.accMap[pj] == second && !Inverse(r)
  {
    var r := Apply(t, Register(Some(second), pj));
    assert t.accounts[second].pjsipAccId != Some(pj);
    assert r.accounts[first] == t.accounts[first];
  }

  lemma DetachedIs(t: Table, u: string, state: RegState)
    requires u in t.accounts
    ensures var d, id := Detached(t, u, state), t.accounts[u].pjsipAccId;
            && u in d.accounts && d.accounts[u].pjsipAccId == None
            && d.live == if id.None? then t.live else t.live - {id.value}
  {
  }

  lemma StepKeeps(t: Table, c: Command)
    requires MapOwned(t) && Fresh(t, c)
    ensures MapOwned(Apply(t, c))
    ensures IdsMapped(t) && !c.Shutdown? ==> IdsMapped(Apply(t, c))
  {
    match c
    case Register(_, _) => RegisterKeeps(t, c);
    case Unregister(Some(u)) =>
      if u in t.accounts {
        DetachedKeeps(t, u, Unregistered);
      }
    case DeleteProfile(Some(u)) => DeleteKeeps(t, u);
    case _ =>
  }

  function After(run: seq<Command>): Table {
    if run == [] then Table(map[], map[], {}) else Apply(After(run[..|run| - 1]), run[|run| - 1])
  }

  /** PJSIP never gives out an id that is still live. */
  predicate AllFresh(run: seq<Command>) {
    run == [] || (AllFresh(run[..|run| - 1]) && Fresh(After(run[..|run| - 1]), run[|run| - 1]))
  }

  /** In every run the map leads only to accounts with that id, and PJSIP holds exactly the mapped ids; while the
      engine has not been shut down, the map is the inverse of the accounts' ids, so that a PJSIP account is held
      for each account with an id and for no other. */
  lemma {:induction false} EveryRunKeepsMap(run: seq<Command>)
    requires AllFresh(run)
    ensures MapOwned(After(run))
    ensures Shutdown !in run ==> Inverse(After(run))
  {
    hide MapOwned, IdsMapped, Apply, Fresh;
    if run == [] {
      EmptyInverse();
    } else {
      var before, last := run[..|run| - 1], run[|run| - 1];
      EveryRunKeepsMap(before);
      StepKeeps(After(before), last);
      assert run == before + [last];
    }
  }

  lemma EmptyInverse()
    ensures Inverse(Table(map[], map[], {}))
  {
  }

  /** Two accounts never share a PJSIP id. */
  lemma IdsDistinct(t: Table, u: string, v: string)
    requires IdsMapped(t) && u in t.accounts && v in t.accounts
    requires t.accounts[u].pjsipAccId.Some? && t.accounts[u].pjsipAccId == t.accounts[v].pjsipAccId
    ensures u == v
  {
    var pj := t.accounts[u].pjsipAccId.value;
    assert t.accMap[pj] == u;
  }

  /** A registration callback reaches the account with that PJSIP id and no other. */
  lemma CallbackReaches(t: Table, pj: int, expires: int, statusCode: int, u: string)
    requires Inverse(t) && u in t.accounts
    ensures var a, b := t.accounts[u], Apply(t, OnRegState(pj, expires, statusCode)).accounts;
            u in b && b[u] == if a.pjsipAccId == Some(pj) then a.(regState := StateOf(expires, statusCode)) else a
  {
    if t.accounts[u].pjsipAccId == Some(pj) {
      assert t.accMap[pj] == u;
    }
  }

  /** Shutdown clears the map and not the accounts' ids. */
  lemma ShutdownKeeps(t: Table)
    requires Inverse(t)
    ensures Inverse(Apply(t, Shutdown)) <==> forall u :: u in t.accounts ==> t.accounts[u].pjsipAccId == None
  {
    var s := Apply(t, Shutdown);
    if u :| u in t.accounts && t.accounts[u].pjsipAccId != None {
      assert s.accounts[u].pjsipAccId.Some? && s.accounts[u].pjsipAccId.value !in s.accMap;
    }
  }

  /** An id kept over a shutdown takes down another account's registration: the second account is given the id that
      the first still has, and is left with a PJSIP account that no longer exists once the first is unregistered. */
  lemma StaleId(t: Table, first: string, second: string, pj: nat)
    requires Inverse(t) && first in t.accounts && second in t.accounts && first != second
    requires t.accounts[first].pjsipAccId == Some(pj) && !t.accounts[second].profile.HasNul()
    ensures var down := Apply(t, Shutdown);
            var shared := Apply(down, Register(Some(second), pj));
            var end := Apply(shared, Unregister(Some(first)));
            && Fresh(down, Register(Some(second), pj))
            && second in end.accounts && end.accounts[second].pjsipAccId == Some(pj) && end.live == {}
  {
  }
}
