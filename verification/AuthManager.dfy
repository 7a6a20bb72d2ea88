/** Users, roles and tokens: a cache in memory over records in the key-value store. */
module AuthManagers {
  import opened Bytes

  type Name = Key

  datatype Permission = Permission(kind: int, key: Key, end: Key)
  datatype UserInfo = UserInfo(name: Name, hash: string, roles: seq<Name>)
  datatype RoleInfo = RoleInfo(name: Name, permissions: seq<Permission>)
  datatype TokenInfo = TokenInfo(token: Name, username: Name, expiresAt: int)

  datatype Record = FlagRec(on: bool) | UserRec(user: UserInfo) | RoleRec(role: RoleInfo) | TokenRec(info: TokenInfo)

  datatype Cache = Cache(enabled: bool, users: map<Name, UserInfo>, roles: map<Name, RoleInfo>,
                         tokens: map<Name, TokenInfo>)

  const EmptyCache := Cache(false, map[], map[], map[])

  const ROOT: Name := Ascii("root")

  // ---------------------------------------------------------------- storage keys

  datatype Slot = EnabledSlot | UserSlot(name: Name) | RoleSlot(name: Name) | TokenSlot(name: Name)

  const ENABLED_KEY := Ascii("/__auth/enabled")
  const USER_PREFIX := Ascii("/__auth/users/")
  const ROLE_PREFIX := Ascii("/__auth/roles/")
  const TOKEN_PREFIX := Ascii("/__auth/tokens/")

  function KeyOf(slot: Slot): Key {
    match slot
    case EnabledSlot => ENABLED_KEY
    case UserSlot(n) => USER_PREFIX + n
    case RoleSlot(n) => ROLE_PREFIX + n
    case TokenSlot(n) => TOKEN_PREFIX + n
  }

  /** The byte after "/__auth/" tells the kinds of record apart. */
  lemma KindByte(slot: Slot)
    ensures |KeyOf(slot)| > 8
    ensures KeyOf(slot)[8] == (match slot
                               case EnabledSlot => 101
                               case UserSlot(_) => 117
                               case RoleSlot(_) => 114
                               case TokenSlot(_) => 116)
  {
  }

  lemma KeyOfInjective(a: Slot, b: Slot)
    requires KeyOf(a) == KeyOf(b)
    ensures a == b
  {
    hide Ascii;
    KindByte(a);
    KindByte(b);
    if !a.EnabledSlot? {
      var p := KeyOf(a)[..|KeyOf(a)| - |a.name|];
      assert a.name == KeyOf(a)[|p|..] && b.name == KeyOf(b)[|p|..];
    }
  }

  function At(store: map<Key, Record>, slot: Slot): Option<Record> {
    if KeyOf(slot) in store then Some(store[KeyOf(slot)]) else None
  }

  lemma PutAt(store: map<Key, Record>, slot: Slot, r: Record, other: Slot)
    ensures At(store[KeyOf(slot) := r], other) == if other == slot then Some(r) else At(store, other)
  {
    hide KeyOf;
    if KeyOf(slot) == KeyOf(other) {
      KeyOfInjective(slot, other);
    }
  }

  lemma DeleteAt(store: map<Key, Record>, slot: Slot, other: Slot)
    ensures At(store - {KeyOf(slot)}, other) == if other == slot then None else At(store, other)
  {
    hide KeyOf;
    if KeyOf(slot) == KeyOf(other) {
      KeyOfInjective(slot, other);
    }
  }

  /** A name the range scans can find again. Names in UTF-8 never contain the byte 0xff. */
  predicate NameOk(n: Name) {
    n == [] || n[0] != 255
  }

  /** What a scan from a prefix up to the prefix followed by 0xff covers. */
  predicate Scanned(k: Key, prefix: Key) {
    Leq(prefix, k) && Less(k, prefix + [255])
  }

  lemma {:induction false} ScannedExactly(k: Key, p: Key)
    ensures Scanned(k, p) <==> p <= k && NameOk(k[|p|..])
  {
    if p == [] {
      assert k[0..] == k;
      assert p + [255] == [255];
      assert k != [] && k[0] == 255 ==> !Less(k[1..], [255][1..]);
    } else if k != [] && k[0] == p[0] {
      ScannedExactly(k[1..], p[1..]);
      assert (p + [255])[1..] == p[1..] + [255];
      assert p == [p[0]] + p[1..] && k == [k[0]] + k[1..];
      if p[1..] <= k[1..] {
        assert k[1..][|p| - 1..] == k[|p|..];
        assert p <= k;
      }
    } else {
      assert (p + [255])[0] == p[0];
    }
  }

  // ---------------------------------------------------------------- operations on the cache

  datatype AuthOp =
    | Enable
    | Disable
    | AddUser(name: Name, hash: string)
    | DeleteUser(name: Name)
    | ChangePassword(name: Name, hash: string)
    | GrantRole(name: Name, role: Name)
    | RevokeRole(name: Name, role: Name)
    | AddRole(role: Name)
    | DeleteRole(role: Name)
    | GrantPermission(role: Name, perm: Permission)
    | RevokePermission(role: Name, key: Key, end: Key)
    | Authenticate(name: Name, passwordRight: bool, token: Name, expiresAt: int)
    | Cleanup(now: int)
    | Restart(now: int)

  function Without<T(==)>(xs: seq<T>, x: T): seq<T> {
    if xs == [] then []
    else Without(xs[..|xs| - 1], x) + (if xs[|xs| - 1] == x then [] else [xs[|xs| - 1]])
  }

  lemma {:induction false} WithoutMember<T>(xs: seq<T>, x: T)
    ensures forall y :: y in Without(xs, x) <==> y in xs && y != x
  {
    if xs != [] {
      var n := |xs| - 1;
      assert xs == xs[..n] + [xs[n]];
      WithoutMember(xs[..n], x);
    }
  }

  predicate Covers(p: Permission, key: Key, end: Key) {
    p.key == key && p.end == end
  }

  function Revoked(ps: seq<Permission>, key: Key, end: Key): seq<Permission> {
    if ps == [] then []
    else Revoked(ps[..|ps| - 1], key, end) + (if Covers(ps[|ps| - 1], key, end) then [] else [ps[|ps| - 1]])
  }

  predicate OpOk(c: Cache, op: AuthOp) {
    match op
    case Enable => ROOT in c.users
    case Disable => true
    case AddUser(name, _) => name !in c.users
    case DeleteUser(name) => name != ROOT && name in c.users
    case ChangePassword(name, _) => name in c.users
    case GrantRole(name, role) => name in c.users && role in c.roles
    case RevokeRole(name, role) => name in c.users && role in c.users[name].roles
    case AddRole(role) => role !in c.roles
    case DeleteRole(role) => role != ROOT && role in c.roles
    case GrantPermission(role, _) => role in c.roles
    case RevokePermission(role, key, end) =>
      role in c.roles && exists i :: 0 <= i < |c.roles[role].permissions| && Covers(c.roles[role].permissions[i], key, end)
    case Authenticate(name, passwordRight, _, _) => name in c.users && passwordRight
    case Cleanup(_) => true
    case Restart(_) => true
  }

  function TokensNotOf(tokens: map<Name, TokenInfo>, name: Name): map<Name, TokenInfo> {
    map t | t in tokens && tokens[t].username != name :: tokens[t]
  }

  function TokensFrom(tokens: map<Name, TokenInfo>, first: int): map<Name, TokenInfo> {
    map t | t in tokens && tokens[t].expiresAt >= first :: tokens[t]
  }

  /** What the scans of a restart can find again. */
  function Findable<V>(m: map<Name, V>): map<Name, V> {
    map n | n in m && NameOk(n) :: m[n]
  }

  function Stripped(u: UserInfo, role: Name): UserInfo {
    u.(roles := Without(u.roles, role))
  }

  function CacheStep(c: Cache, op: AuthOp): Cache {
    if !OpOk(c, op) then c
    else
      match op
      case Enable => c.(enabled := true)
      case Disable => c.(enabled := false, tokens := map[])
      case AddUser(name, hash) => c.(users := c.users[name := UserInfo(name, hash, [])])
      case DeleteUser(name) => c.(users := c.users - {name}, tokens := TokensNotOf(c.tokens, name))
      case ChangePassword(name, hash) =>
        c.(users := c.users[name := c.users[name].(hash := hash)], tokens := TokensNotOf(c.tokens, name))
      case GrantRole(name, role) =>
        if role in c.users[name].roles then c
        else c.(users := c.users[name := c.users[name].(roles := c.users[name].roles + [role])])
      case RevokeRole(name, role) => c.(users := c.users[name := Stripped(c.users[name], role)])
      case AddRole(role) => c.(roles := c.roles[role := RoleInfo(role, [])])
      case DeleteRole(role) => c.(users := map n | n in c.users :: Stripped(c.users[n], role), roles := c.roles - {role})
      case GrantPermission(role, perm) =>
        c.(roles := c.roles[role := c.roles[role].(permissions := c.roles[role].permissions + [perm])])
      case RevokePermission(role, key, end) =>
        c.(roles := c.roles[role := c.roles[role].(permissions := Revoked(c.roles[role].permissions, key, end))])
      case Authenticate(name, _, token, expiresAt) => c.(tokens := c.tokens[token := TokenInfo(token, name, expiresAt)])
      case Cleanup(now) => c.(tokens := TokensFrom(c.tokens, now))
      case Restart(now) => Cache(c.enabled, Findable(c.users), Findable(c.roles), TokensFrom(Findable(c.tokens), now + 1))
  }

  function CacheRun(ops: seq<AuthOp>): Cache {
    if ops == [] then EmptyCache else CacheStep(CacheRun(ops[..|ops| - 1]), ops[|ops| - 1])
  }

  // ---------------------------------------------------------------- references stay good

  /** Roles that users hold exist, tokens belong to users that exist, and enabled means there is a root. */
  ghost predicate References(c: Cache) {
    && (c.enabled ==> ROOT in c.users)
    && (forall n, r :: n in c.users && r in c.users[n].roles ==> r in c.roles)
    && (forall t :: t in c.tokens ==> c.tokens[t].username in c.users)
  }

  lemma StripReferences(c: Cache, role: Name, users: map<Name, UserInfo>)
    requires References(c) && users.Keys == c.users.Keys
    requires forall n :: n in users ==> users[n] == Stripped(c.users[n], role)
    ensures References(c.(users := users, roles := c.roles - {role}))
  {
    hide Ascii, Without;
    forall n, r | n in users && r in users[n].roles
      ensures r in c.roles - {role}
    {
      WithoutMember(c.users[n].roles, role);
      assert r in c.users[n].roles;
    }
  }

  lemma SetUserReferences(c: Cache, name: Name, u: UserInfo)
    requires References(c) && forall r :: r in u.roles ==> r in c.roles
    ensures References(c.(users := c.users[name := u]))
  {
    hide Ascii;
  }

  lemma DropTokensReferences(c: Cache, tokens: map<Name, TokenInfo>)
    requires References(c) && forall t :: t in tokens ==> t in c.tokens && tokens[t] == c.tokens[t]
    ensures References(c.(tokens := tokens))
  {
    hide Ascii;
  }

  /** What a restart finds again refers only to what it finds again. */
  ghost predicate SafeRestart(c: Cache, now: int) {
    && (forall n, r :: n in c.users && NameOk(n) && r in c.users[n].roles ==> NameOk(r))
    && (forall t :: t in c.tokens && NameOk(t) && c.tokens[t].expiresAt > now ==> NameOk(c.tokens[t].username))
  }

  /** A restart keeps references good exactly when it is safe. */
  lemma RestartReferences(c: Cache, now: int)
    requires References(c)
    ensures References(CacheStep(c, Restart(now))) <==> SafeRestart(c, now)
  {
    hide Ascii, NameOk;
    RootIsFound();
    var after := CacheStep(c, Restart(now));
    if References(after) {
      forall n, r | n in c.users && NameOk(n) && r in c.users[n].roles
        ensures NameOk(r)
      {
        assert n in after.users && after.users[n] == c.users[n];
        assert r in after.users[n].roles;
        assert r in after.roles;
      }
      forall t | t in c.tokens && NameOk(t) && c.tokens[t].expiresAt > now
        ensures NameOk(c.tokens[t].username)
      {
        assert t in after.tokens;
      }
    }
  }

  lemma RootIsFound()
    ensures NameOk(ROOT)
  {
  }

  ghost predicate SafeStep(c: Cache, op: AuthOp) {
    op.Restart? ==> SafeRestart(c, op.now)
  }

  lemma StepReferences(c: Cache, op: AuthOp)
    requires References(c)
    ensures References(CacheStep(c, op)) <==> SafeStep(c, op)
  {
    hide Ascii, Without, Revoked, TokensFrom, SafeRestart, Findable;
    if op.Restart? {
      RestartReferences(c, op.now);
    } else if OpOk(c, op) {
      match op
      case AddUser(name, hash) => SetUserReferences(c, name, UserInfo(name, hash, []));
      case DeleteUser(name) =>
      case ChangePassword(name, hash) =>
        DropTokensReferences(c, TokensNotOf(c.tokens, name));
        SetUserReferences(c.(tokens := TokensNotOf(c.tokens, name)), name, c.users[name].(hash := hash));
      case GrantRole(name, role) => SetUserReferences(c, name, c.users[name].(roles := c.users[name].roles + [role]));
      case RevokeRole(name, role) =>
        WithoutMember(c.users[name].roles, role);
        SetUserReferences(c, name, Stripped(c.users[name], role));
      case DeleteRole(role) => StripReferences(c, role, map n | n in c.users :: Stripped(c.users[n], role));
      case Cleanup(now) => KeptTokens(c.tokens, now); DropTokensReferences(c, TokensFrom(c.tokens, now));
      case _ =>
    }
  }

  lemma KeptTokens(tokens: map<Name, TokenInfo>, first: int)
    ensures forall t :: t in TokensFrom(tokens, first) ==> t in tokens && TokensFrom(tokens, first)[t] == tokens[t]
  {
  }

  ghost predicate RestartsSafe(ops: seq<AuthOp>) {
    ops == [] || (RestartsSafe(ops[..|ops| - 1]) && SafeStep(CacheRun(ops[..|ops| - 1]), ops[|ops| - 1]))
  }

  /** References stay good all along a run exactly when all its restarts are safe. */
  lemma {:induction false} RunReferences(ops: seq<AuthOp>)
    ensures (forall n :: 0 <= n <= |ops| ==> References(CacheRun(ops[..n]))) <==> RestartsSafe(ops)
  {
    hide CacheStep, References, SafeStep;
    if ops == [] {
      EmptyReferences();
      assert forall n :: 0 <= n <= |ops| ==> ops[..n] == [];
    } else {
      var m := |ops| - 1;
      var pre := ops[..m];
      RunReferences(pre);
      assert forall n :: 0 <= n <= m ==> pre[..n] == ops[..n];
      assert pre[..m] == pre && ops[..|ops|] == ops;
      if References(CacheRun(pre)) {
        StepReferences(CacheRun(pre), ops[m]);
      }
    }
  }

  lemma EmptyReferences()
    ensures References(EmptyCache)
  {
  }

  /** No user and no role gets a name that scans cannot find. */
  predicate NamesOk(ops: seq<AuthOp>) {
    forall i :: 0 <= i < |ops| ==> (ops[i].AddUser? ==> NameOk(ops[i].name)) && (ops[i].AddRole? ==> NameOk(ops[i].role))
  }

  ghost predicate AllFindable(c: Cache) {
    (forall n :: n in c.users ==> NameOk(n)) && (forall r :: r in c.roles ==> NameOk(r))
  }

  lemma StepFindable(c: Cache, op: AuthOp)
    requires AllFindable(c) && NamesOk([op])
    ensures AllFindable(CacheStep(c, op))
  {
    hide Ascii, NameOk, Without, Revoked, TokensFrom;
    assert [op][0] == op;
  }

  lemma FindableIsSafe(c: Cache, now: int)
    requires AllFindable(c) && References(c)
    ensures SafeRestart(c, now)
  {
    hide Ascii, NameOk;
  }

  /** With findable names, references stay good in every state of every run. */
  lemma {:induction false} FindableNamesAreSafe(ops: seq<AuthOp>)
    requires NamesOk(ops)
    ensures RestartsSafe(ops) && References(CacheRun(ops)) && AllFindable(CacheRun(ops))
  {
    hide CacheStep, References, SafeRestart, NameOk, AllFindable;
    if ops == [] {
      EmptyReferences();
      EmptyFindable();
    } else {
      var m := |ops| - 1;
      FindableNamesAreSafe(ops[..m]);
      var c := CacheRun(ops[..m]);
      if ops[m].Restart? {
        FindableIsSafe(c, ops[m].now);
      }
      StepReferences(c, ops[m]);
      StepFindable(c, ops[m]);
    }
  }

  lemma EmptyFindable()
    ensures AllFindable(EmptyCache)
  {
  }

  // ---------------------------------------------------------------- cache and store

  /** Besides the cached users the store may hold some that the last restart did not find. */
  ghost predicate UsersStored(users: map<Name, UserInfo>, store: map<Key, Record>) {
    forall n :: if n in users then At(store, UserSlot(n)) == Some(UserRec(users[n])) else NameOk(n) ==> At(store, UserSlot(n)) == None
  }

  ghost predicate RolesStored(roles: map<Name, RoleInfo>, store: map<Key, Record>) {
    forall n :: if n in roles then At(store, RoleSlot(n)) == Some(RoleRec(roles[n])) else NameOk(n) ==> At(store, RoleSlot(n)) == None
  }

  /** Besides the cached tokens the store may hold some that had run out by the time of the last start,
      and some it did not find. */
  ghost predicate TokenStored(tokens: map<Name, TokenInfo>, store: map<Key, Record>, started: int, t: Name) {
    var r := At(store, TokenSlot(t));
    if t in tokens then r == Some(TokenRec(tokens[t]))
    else NameOk(t) && r.Some? ==> r.value.TokenRec? && r.value.info.token == t && r.value.info.expiresAt <= started
  }

  ghost predicate TokensStored(tokens: map<Name, TokenInfo>, store: map<Key, Record>, started: int) {
    forall t :: TokenStored(tokens, store, started, t)
  }

  ghost predicate FlagStored(enabled: bool, store: map<Key, Record>) {
    match At(store, EnabledSlot)
    case Some(r) => r == FlagRec(enabled)
    case None => !enabled
  }

  /** Every entry carries its own name. */
  ghost predicate Named(c: Cache) {
    && (forall n :: n in c.users ==> c.users[n].name == n)
    && (forall n :: n in c.roles ==> c.roles[n].name == n)
    && (forall t :: t in c.tokens ==> c.tokens[t].token == t)
  }

  ghost predicate Persisted(c: Cache, store: map<Key, Record>, started: int) {
    && Named(c)
    && FlagStored(c.enabled, store)
    && UsersStored(c.users, store)
    && RolesStored(c.roles, store)
    && TokensStored(c.tokens, store, started)
  }

  /** The write touches one slot only. */
  ghost predicate OthersKept(before: map<Key, Record>, after: map<Key, Record>, slot: Slot) {
    forall other :: other != slot ==> At(after, other) == At(before, other)
  }

  lemma OnePut(store: map<Key, Record>, slot: Slot, r: Record)
    ensures OthersKept(store, store[KeyOf(slot) := r], slot) && At(store[KeyOf(slot) := r], slot) == Some(r)
  {
    hide At;
    forall other
      ensures other != slot ==> At(store[KeyOf(slot) := r], other) == At(store, other)
    {
      PutAt(store, slot, r, other);
    }
    PutAt(store, slot, r, slot);
  }

  lemma OneDelete(store: map<Key, Record>, slot: Slot)
    ensures OthersKept(store, store - {KeyOf(slot)}, slot) && At(store - {KeyOf(slot)}, slot) == None
  {
    hide At;
    forall other
      ensures other != slot ==> At(store - {KeyOf(slot)}, other) == At(store, other)
    {
      DeleteAt(store, slot, other);
    }
    DeleteAt(store, slot, slot);
  }

  /** A write to one slot leaves the other kinds of record as they were. */
  lemma KeepOthers(c: Cache, before: map<Key, Record>, after: map<Key, Record>, started: int, slot: Slot)
    requires Persisted(c, before, started) && OthersKept(before, after, slot)
    ensures !slot.EnabledSlot? ==> FlagStored(c.enabled, after)
    ensures !slot.UserSlot? ==> UsersStored(c.users, after)
    ensures !slot.RoleSlot? ==> RolesStored(c.roles, after)
    ensures !slot.TokenSlot? ==> TokensStored(c.tokens, after, started)
  {
    hide At, Named;
    if !slot.EnabledSlot? {
      assert At(after, EnabledSlot) == At(before, EnabledSlot);
    }
    if !slot.TokenSlot? {
      forall t
        ensures TokenStored(c.tokens, after, started, t)
      {
        assert TokenStored(c.tokens, before, started, t);
        assert At(after, TokenSlot(t)) == At(before, TokenSlot(t));
      }
    }
  }

  lemma PersistUser(c: Cache, store: map<Key, Record>, started: int, u: UserInfo)
    requires Persisted(c, store, started)
    ensures Persisted(c.(users := c.users[u.name := u]), store[KeyOf(UserSlot(u.name)) := UserRec(u)], started)
  {
    hide At, KeyOf, TokensStored, RolesStored, FlagStored, NameOk;
    OnePut(store, UserSlot(u.name), UserRec(u));
    KeepOthers(c, store, store[KeyOf(UserSlot(u.name)) := UserRec(u)], started, UserSlot(u.name));
  }

  lemma ForgetUser(c: Cache, store: map<Key, Record>, started: int, n: Name)
    requires Persisted(c, store, started)
    ensures Persisted(c.(users := c.users - {n}), store - {KeyOf(UserSlot(n))}, started)
  {
    hide At, KeyOf, TokensStored, RolesStored, FlagStored, NameOk;
    OneDelete(store, UserSlot(n));
    KeepOthers(c, store, store - {KeyOf(UserSlot(n))}, started, UserSlot(n));
  }

  lemma PersistRole(c: Cache, store: map<Key, Record>, started: int, r: RoleInfo)
    requires Persisted(c, store, started)
    ensures Persisted(c.(roles := c.roles[r.name := r]), store[KeyOf(RoleSlot(r.name)) := RoleRec(r)], started)
  {
    hide At, KeyOf, TokensStored, UsersStored, FlagStored, NameOk;
    OnePut(store, RoleSlot(r.name), RoleRec(r));
    KeepOthers(c, store, store[KeyOf(RoleSlot(r.name)) := RoleRec(r)], started, RoleSlot(r.name));
  }

  lemma ForgetRole(c: Cache, store: map<Key, Record>, started: int, n: Name)
    requires Persisted(c, store, started)
    ensures Persisted(c.(roles := c.roles - {n}), store - {KeyOf(RoleSlot(n))}, started)
  {
    hide At, KeyOf, TokensStored, UsersStored, FlagStored, NameOk;
    OneDelete(store, RoleSlot(n));
    KeepOthers(c, store, store - {KeyOf(RoleSlot(n))}, started, RoleSlot(n));
  }

  lemma PersistFlag(c: Cache, store: map<Key, Record>, started: int, on: bool)
    requires Persisted(c, store, started)
    ensures Persisted(c.(enabled := on), store[KeyOf(EnabledSlot) := FlagRec(on)], started)
  {
    hide At, KeyOf, TokensStored, UsersStored, RolesStored;
    OnePut(store, EnabledSlot, FlagRec(on));
    KeepOthers(c, store, store[KeyOf(EnabledSlot) := FlagRec(on)], started, EnabledSlot);
  }

  lemma PersistToken(c: Cache, store: map<Key, Record>, started: int, i: TokenInfo)
    requires Persisted(c, store, started)
    ensures Persisted(c.(tokens := c.tokens[i.token := i]), store[KeyOf(TokenSlot(i.token)) := TokenRec(i)], started)
  {
    hide At, KeyOf, UsersStored, RolesStored, FlagStored, TokenStored, NameOk;
    var after := store[KeyOf(TokenSlot(i.token)) := TokenRec(i)];
    OnePut(store, TokenSlot(i.token), TokenRec(i));
    KeepOthers(c, store, after, started, TokenSlot(i.token));
    var tokens := c.tokens[i.token := i];
    forall t
      ensures TokenStored(tokens, after, started, t)
    {
      assert TokenStored(c.tokens, store, started, t);
      TokenPut(c.tokens, store, after, started, i, t);
    }
  }

  lemma TokenPut(tokens: map<Name, TokenInfo>, before: map<Key, Record>, after: map<Key, Record>, started: int,
                 i: TokenInfo, t: Name)
    requires TokenStored(tokens, before, started, t)
    requires OthersKept(before, after, TokenSlot(i.token)) && At(after, TokenSlot(i.token)) == Some(TokenRec(i))
    ensures TokenStored(tokens[i.token := i], after, started, t)
  {
    hide At;
    assert t != i.token ==> At(after, TokenSlot(t)) == At(before, TokenSlot(t));
  }

  lemma ForgetToken(c: Cache, store: map<Key, Record>, started: int, t: Name)
    requires Persisted(c, store, started)
    ensures Persisted(c.(tokens := c.tokens - {t}), store - {KeyOf(TokenSlot(t))}, started)
  {
    hide At, KeyOf, UsersStored, RolesStored, FlagStored, TokenStored, NameOk;
    var after := store - {KeyOf(TokenSlot(t))};
    OneDelete(store, TokenSlot(t));
    KeepOthers(c, store, after, started, TokenSlot(t));
    forall other
      ensures TokenStored(c.tokens - {t}, after, started, other)
    {
      assert TokenStored(c.tokens, store, started, other);
      TokenGone(c.tokens, store, after, started, t, other);
    }
  }

  lemma TokenGone(tokens: map<Name, TokenInfo>, before: map<Key, Record>, after: map<Key, Record>, started: int,
                  gone: Name, t: Name)
    requires TokenStored(tokens, before, started, t)
    requires OthersKept(before, after, TokenSlot(gone)) && At(after, TokenSlot(gone)) == None
    ensures TokenStored(tokens - {gone}, after, started, t)
  {
    hide At;
    assert t != gone ==> At(after, TokenSlot(t)) == At(before, TokenSlot(t));
  }

  /** The store after the deletion of a scanned range. */
  function Cleared(store: map<Key, Record>, prefix: Key): map<Key, Record> {
    map k | k in store && !Scanned(k, prefix) :: store[k]
  }

  lemma ClearedAt(store: map<Key, Record>, slot: Slot)
    ensures At(Cleared(store, TOKEN_PREFIX), slot) ==
            if slot.TokenSlot? && NameOk(slot.name) then None else At(store, slot)
  {
    hide Ascii, Scanned;
    KindByte(slot);
    KindByte(TokenSlot([]));
    assert KeyOf(TokenSlot([])) == TOKEN_PREFIX;
    ScannedExactly(KeyOf(slot), TOKEN_PREFIX);
    if slot.TokenSlot? {
      assert KeyOf(slot)[|TOKEN_PREFIX|..] == slot.name;
    }
  }

  lemma ForgetAllTokens(c: Cache, store: map<Key, Record>, started: int)
    requires Persisted(c, store, started)
    ensures Persisted(c.(tokens := map[]), Cleared(store, TOKEN_PREFIX), started)
  {
    hide At, KeyOf, Cleared, NameOk, TokenStored;
    var after := Cleared(store, TOKEN_PREFIX);
    forall slot: Slot
      ensures At(after, slot) == if slot.TokenSlot? && NameOk(slot.name) then None else At(store, slot)
    {
      ClearedAt(store, slot);
    }
    forall t
      ensures TokenStored(map[], after, started, t)
    {
      assert TokenStored(c.tokens, store, started, t);
      TokenCleared(c.tokens, store, after, started, t);
    }
  }

  lemma TokenCleared(tokens: map<Name, TokenInfo>, before: map<Key, Record>, after: map<Key, Record>, started: int, t: Name)
    requires TokenStored(tokens, before, started, t)
    requires At(after, TokenSlot(t)) == if NameOk(t) then None else At(before, TokenSlot(t))
    ensures TokenStored(map[], after, started, t)
  {
    hide At;
  }

  // ---------------------------------------------------------------- loading

  function ScanKeys(store: map<Key, Record>, prefix: Key): seq<Key> {
    Ascending(set k | k in store && Scanned(k, prefix))
  }

  lemma ScanFinds(store: map<Key, Record>, prefix: Key)
    ensures forall k :: k in ScanKeys(store, prefix) <==> k in store && prefix <= k && NameOk(k[|prefix|..])
  {
    hide Scanned, NameOk, Ascii;
    forall k
      ensures k in ScanKeys(store, prefix) <==> k in store && prefix <= k && NameOk(k[|prefix|..])
    {
      ScannedExactly(k, prefix);
    }
  }

  /** m is the part of full whose keys are among keys. */
  ghost predicate Loaded<V>(m: map<Name, V>, full: map<Name, V>, key: Name -> Key, keys: seq<Key>) {
    && (forall n :: n in m <==> n in full && key(n) in keys)
    && (forall n :: n in m ==> m[n] == full[n])
  }

  ghost predicate Injective(key: Name -> Key) {
    forall a, b :: key(a) == key(b) ==> a == b
  }

  lemma LoadedNext<V>(m: map<Name, V>, full: map<Name, V>, key: Name -> Key, keys: seq<Key>, n: Name)
    requires Loaded(m, full, key, keys) && Injective(key) && n in full
    ensures Loaded(m[n := full[n]], full, key, keys + [key(n)])
  {
  }

  lemma LoadedSkip<V>(m: map<Name, V>, full: map<Name, V>, key: Name -> Key, keys: seq<Key>, k: Key)
    requires Loaded(m, full, key, keys) && forall n :: n in full ==> key(n) != k
    ensures Loaded(m, full, key, keys + [k])
  {
  }

  lemma LoadedAll<V>(m: map<Name, V>, full: map<Name, V>, key: Name -> Key, keys: seq<Key>)
    requires Loaded(m, full, key, keys) && forall n :: n in full ==> key(n) in keys
    ensures m == full
  {
  }

  function UserKey(n: Name): Key {
    KeyOf(UserSlot(n))
  }

  function RoleKey(n: Name): Key {
    KeyOf(RoleSlot(n))
  }

  function TokenKey(n: Name): Key {
    KeyOf(TokenSlot(n))
  }

  lemma KeysInjective()
    ensures Injective(UserKey) && Injective(RoleKey) && Injective(TokenKey)
  {
    hide KeyOf;
    forall a, b
      ensures UserKey(a) == UserKey(b) ==> a == b
      ensures RoleKey(a) == RoleKey(b) ==> a == b
      ensures TokenKey(a) == TokenKey(b) ==> a == b
    {
      if UserKey(a) == UserKey(b) {
        KeyOfInjective(UserSlot(a), UserSlot(b));
      }
      if RoleKey(a) == RoleKey(b) {
        KeyOfInjective(RoleSlot(a), RoleSlot(b));
      }
      if TokenKey(a) == TokenKey(b) {
        KeyOfInjective(TokenSlot(a), TokenSlot(b));
      }
    }
  }

  /** The scan of a prefix meets the slots of that kind, and meets every one with a findable name. */
  lemma ScanSlots(store: map<Key, Record>, k: Key, n: Name)
    ensures k in ScanKeys(store, USER_PREFIX) ==>
              k in store && |k| >= |USER_PREFIX| && k == UserKey(k[|USER_PREFIX|..]) && NameOk(k[|USER_PREFIX|..])
    ensures k in ScanKeys(store, ROLE_PREFIX) ==>
              k in store && |k| >= |ROLE_PREFIX| && k == RoleKey(k[|ROLE_PREFIX|..]) && NameOk(k[|ROLE_PREFIX|..])
    ensures k in ScanKeys(store, TOKEN_PREFIX) ==>
              k in store && |k| >= |TOKEN_PREFIX| && k == TokenKey(k[|TOKEN_PREFIX|..]) && NameOk(k[|TOKEN_PREFIX|..])
    ensures NameOk(n) && UserKey(n) in store ==> UserKey(n) in ScanKeys(store, USER_PREFIX)
    ensures NameOk(n) && RoleKey(n) in store ==> RoleKey(n) in ScanKeys(store, ROLE_PREFIX)
    ensures NameOk(n) && TokenKey(n) in store ==> TokenKey(n) in ScanKeys(store, TOKEN_PREFIX)
  {
    hide Ascii, NameOk, ScanKeys;
    ScanFinds(store, USER_PREFIX);
    ScanFinds(store, ROLE_PREFIX);
    ScanFinds(store, TOKEN_PREFIX);
    assert UserKey(n)[|USER_PREFIX|..] == n;
    assert RoleKey(n)[|ROLE_PREFIX|..] == n;
    assert TokenKey(n)[|TOKEN_PREFIX|..] == n;
  }

  lemma UserRecord(c: Cache, store: map<Key, Record>, started: int, k: Key)
    requires Persisted(c, store, started) && k in ScanKeys(store, USER_PREFIX)
    ensures k in store && store[k].UserRec?
    ensures var u := store[k].user; u.name in Findable(c.users) && c.users[u.name] == u && k == UserKey(u.name)
  {
    hide Ascii, ScanKeys, KeyOf;
    ScanSlots(store, k, []);
    var n := k[|USER_PREFIX|..];
    assert At(store, UserSlot(n)) == Some(store[k]);
  }

  method LoadUsers(store: map<Key, Record>, ghost c: Cache, ghost started: int) returns (users: map<Name, UserInfo>)
    requires Persisted(c, store, started)
    ensures users == Findable(c.users)
  {
    hide Ascii, ScanKeys, KeyOf, Loaded, UserKey, Injective, Persisted;
    var keys := ScanKeys(store, USER_PREFIX);
    KeysInjective();
    users := map[];
    ghost var found := Findable(c.users);
    NothingLoaded(found, UserKey);
    var i := 0;
    while i < |keys|
      invariant 0 <= i <= |keys| && Loaded(users, found, UserKey, keys[..i])
    {
      UserRecord(c, store, started, keys[i]);
      var user := store[keys[i]].user;
      LoadedNext(users, found, UserKey, keys[..i], user.name);
      assert keys[..i + 1] == keys[..i] + [keys[i]];
      users := users[user.name := user];
      i := i + 1;
    }
    assert keys[..i] == keys;
    UsersScanned(c, store, started);
    LoadedAll(users, found, UserKey, keys);
  }

  lemma NothingLoaded<V>(full: map<Name, V>, key: Name -> Key)
    ensures Loaded(map[], full, key, [])
  {
  }

  lemma UsersScanned(c: Cache, store: map<Key, Record>, started: int)
    requires Persisted(c, store, started)
    ensures forall n :: n in Findable(c.users) ==> UserKey(n) in ScanKeys(store, USER_PREFIX)
  {
    hide Ascii, ScanKeys, KeyOf, NameOk, RolesStored, TokensStored;
    forall n | n in Findable(c.users)
      ensures UserKey(n) in ScanKeys(store, USER_PREFIX)
    {
      ScanSlots(store, [], n);
      assert At(store, UserSlot(n)).Some?;
    }
  }

  lemma RolesScanned(c: Cache, store: map<Key, Record>, started: int)
    requires Persisted(c, store, started)
    ensures forall n :: n in Findable(c.roles) ==> RoleKey(n) in ScanKeys(store, ROLE_PREFIX)
  {
    hide Ascii, ScanKeys, KeyOf, NameOk, UsersStored, TokensStored;
    forall n | n in Findable(c.roles)
      ensures RoleKey(n) in ScanKeys(store, ROLE_PREFIX)
    {
      ScanSlots(store, [], n);
      assert At(store, RoleSlot(n)).Some?;
    }
  }

  lemma TokensScanned(c: Cache, store: map<Key, Record>, started: int)
    requires Persisted(c, store, started)
    ensures forall n :: n in Findable(c.tokens) ==> TokenKey(n) in ScanKeys(store, TOKEN_PREFIX)
  {
    hide Ascii, ScanKeys, KeyOf, NameOk, UsersStored, RolesStored;
    forall n | n in Findable(c.tokens)
      ensures TokenKey(n) in ScanKeys(store, TOKEN_PREFIX)
    {
      ScanSlots(store, [], n);
      assert TokenStored(c.tokens, store, started, n);
    }
  }

  lemma RoleRecord(c: Cache, store: map<Key, Record>, started: int, k: Key)
    requires Persisted(c, store, started) && k in ScanKeys(store, ROLE_PREFIX)
    ensures k in store && store[k].RoleRec?
    ensures var r := store[k].role; r.name in Findable(c.roles) && c.roles[r.name] == r && k == RoleKey(r.name)
  {
    hide Ascii, ScanKeys, KeyOf;
    ScanSlots(store, k, []);
    var n := k[|ROLE_PREFIX|..];
    assert At(store, RoleSlot(n)) == Some(store[k]);
  }

  method LoadRoles(store: map<Key, Record>, ghost c: Cache, ghost started: int) returns (roles: map<Name, RoleInfo>)
    requires Persisted(c, store, started)
    ensures roles == Findable(c.roles)
  {
    hide Ascii, ScanKeys, KeyOf, Loaded, RoleKey, Injective, Persisted;
    var keys := ScanKeys(store, ROLE_PREFIX);
    KeysInjective();
    roles := map[];
    ghost var found := Findable(c.roles);
    NothingLoaded(found, RoleKey);
    var i := 0;
    while i < |keys|
      invariant 0 <= i <= |keys| && Loaded(roles, found, RoleKey, keys[..i])
    {
      RoleRecord(c, store, started, keys[i]);
      var role := store[keys[i]].role;
      LoadedNext(roles, found, RoleKey, keys[..i], role.name);
      assert keys[..i + 1] == keys[..i] + [keys[i]];
      roles := roles[role.name := role];
      i := i + 1;
    }
    assert keys[..i] == keys;
    RolesScanned(c, store, started);
    LoadedAll(roles, found, RoleKey, keys);
  }

  lemma TokenRecord(c: Cache, store: map<Key, Record>, started: int, k: Key)
    requires Persisted(c, store, started) && k in ScanKeys(store, TOKEN_PREFIX)
    ensures k in store && store[k].TokenRec?
    ensures var i := store[k].info;
            && k == TokenKey(i.token)
            && NameOk(i.token)
            && if i.token in c.tokens then c.tokens[i.token] == i else i.expiresAt <= started
  {
    hide Ascii, ScanKeys, KeyOf;
    ScanSlots(store, k, []);
    var n := k[|TOKEN_PREFIX|..];
    assert TokenStored(c.tokens, store, started, n);
    assert At(store, TokenSlot(n)) == Some(store[k]);
  }

  method LoadTokens(store: map<Key, Record>, now: int, ghost c: Cache, ghost started: int)
    returns (tokens: map<Name, TokenInfo>)
    requires Persisted(c, store, started) && started <= now
    ensures tokens == TokensFrom(Findable(c.tokens), now + 1)
  {
    hide Ascii, ScanKeys, KeyOf, Loaded, TokenKey, Injective, Persisted;
    var keys := ScanKeys(store, TOKEN_PREFIX);
    KeysInjective();
    tokens := map[];
    ghost var live := TokensFrom(Findable(c.tokens), now + 1);
    NothingLoaded(live, TokenKey);
    var i := 0;
    while i < |keys|
      invariant 0 <= i <= |keys| && Loaded(tokens, live, TokenKey, keys[..i])
    {
      TokenRecord(c, store, started, keys[i]);
      var info := store[keys[i]].info;
      assert keys[..i + 1] == keys[..i] + [keys[i]];
      if info.expiresAt > now {
        LoadedNext(tokens, live, TokenKey, keys[..i], info.token);
        tokens := tokens[info.token := info];
      } else {
        OnlyItsOwnKey(live, info.token);
        LoadedSkip(tokens, live, TokenKey, keys[..i], keys[i]);
      }
      i := i + 1;
    }
    assert keys[..i] == keys;
    TokensScanned(c, store, started);
    LoadedAll(tokens, live, TokenKey, keys);
  }

  lemma OnlyItsOwnKey(live: map<Name, TokenInfo>, t: Name)
    requires t !in live && Injective(TokenKey)
    ensures forall n :: n in live ==> TokenKey(n) != TokenKey(t)
  {
    hide TokenKey;
  }

  /** Loading what a manager has persisted gives back its cache, less the tokens that have run out. */
  method LoadState(store: map<Key, Record>, now: int, ghost c: Cache, ghost started: int) returns (loaded: Cache)
    requires Persisted(c, store, started) && started <= now
    ensures loaded == CacheStep(c, Restart(now))
  {
    hide KeyOf, Ascii, Named, UsersStored, RolesStored, TokensStored;
    var enabled := false;
    if KeyOf(EnabledSlot) in store && store[KeyOf(EnabledSlot)] == FlagRec(true) {
      enabled := true;
    }
    var users := LoadUsers(store, c, started);
    var roles := LoadRoles(store, c, started);
    var tokens := LoadTokens(store, now, c, started);
    loaded := Cache(enabled, users, roles, tokens);
  }

  // ---------------------------------------------------------------- what a restart changes

  predicate Accepts(c: Cache, token: Name, now: int) {
    token in c.tokens && now <= c.tokens[token].expiresAt
  }

  /** A restart keeps every accepted token but one that runs out in this very second. */
  lemma RestartKeepsToken(c: Cache, token: Name, now: int)
    requires Accepts(c, token, now)
    ensures Accepts(CacheStep(c, Restart(now)), token, now) <==> NameOk(token) && c.tokens[token].expiresAt != now
  {
  }

  /** A name that starts with 0xff lies outside the scan: exactly the other names can be loaded again. */
  lemma FoundAgain(store: map<Key, Record>, n: Name, u: UserInfo)
    ensures UserKey(n) in ScanKeys(store[UserKey(n) := UserRec(u)], USER_PREFIX) <==> NameOk(n)
  {
    hide Ascii, NameOk, ScanKeys;
    ScanFinds(store[UserKey(n) := UserRec(u)], USER_PREFIX);
    assert UserKey(n)[|USER_PREFIX|..] == n;
  }

  // ---------------------------------------------------------------- two restarts that lose something

  lemma CacheRunSnoc(ops: seq<AuthOp>, op: AuthOp)
    ensures CacheRun(ops + [op]) == CacheStep(CacheRun(ops), op)
  {
    assert (ops + [op])[..|ops|] == ops;
  }

  const T: Name := [116]

  /** root logs in with a token good until second 5; a restart in second 5 drops a token that was still accepted. */
  lemma RestartDropsAcceptedToken()
    ensures var ops := [AddUser(ROOT, "")] + [Authenticate(ROOT, true, T, 5)];
            Accepts(CacheRun(ops), T, 5) && !Accepts(CacheRun(ops + [Restart(5)]), T, 5)
  {
    hide Ascii, CacheRun;
    var add, login := AddUser(ROOT, ""), Authenticate(ROOT, true, T, 5);
    CacheRunSnoc([], add);
    CacheRunSnoc([add], login);
    assert [] + [add] == [add];
    NothingRun();
    CacheRunSnoc([add] + [login], Restart(5));
    RestartKeepsToken(CacheRun([add] + [login]), T, 5);
  }

  lemma NothingRun()
    ensures CacheRun([]) == EmptyCache
  {
  }

  const ODD: Name := [255]

  /** A role whose name starts with 0xff is gone after a restart, but root still holds it. */
  lemma RestartDropsHeldRole()
    ensures var ops := [AddUser(ROOT, "")] + [AddRole(ODD)] + [GrantRole(ROOT, ODD)];
            References(CacheRun(ops)) && !References(CacheRun(ops + [Restart(0)]))
  {
    hide Ascii, CacheRun;
    var add, role, grant := AddUser(ROOT, ""), AddRole(ODD), GrantRole(ROOT, ODD);
    NothingRun();
    CacheRunSnoc([], add);
    assert [] + [add] == [add];
    CacheRunSnoc([add], role);
    CacheRunSnoc([add] + [role], grant);
    var ops := [add] + [role] + [grant];
    CacheRunSnoc(ops, Restart(0));
    RootIsFound();
    var before, c := CacheRun([add] + [role]), CacheRun(ops);
    assert before.users == map[ROOT := UserInfo(ROOT, "", [])] && before.roles == map[ODD := RoleInfo(ODD, [])];
    assert c.users[ROOT].roles == [] + [ODD] && c.users.Keys == {ROOT} && c.roles == before.roles && c.tokens == map[];
    assert ODD in c.users[ROOT].roles && !NameOk(ODD);
    RestartReferences(c, 0);
  }

  // ---------------------------------------------------------------- the manager

  class AuthManager {
    var enabled: bool
    var users: map<Name, UserInfo>
    var roles: map<Name, RoleInfo>
    var tokens: map<Name, TokenInfo>
    var store: map<Key, Record>
    ghost const started: int

    ghost function View(): Cache
      reads this
    {
      Cache(enabled, users, roles, tokens)
    }

    ghost predicate Valid()
      reads this
    {
      Persisted(View(), store, started)
    }

    /** A manager on a store that an earlier one has left behind, at a time no earlier than that one's start. */
    constructor (db: map<Key, Record>, now: int, ghost c: Cache, ghost before: int)
      requires Persisted(c, db, before) && before <= now
      ensures Valid() && store == db && started == now && View() == CacheStep(c, Restart(now))
    {
      hide Persisted, CacheStep, Ascii;
      var loaded := LoadState(db, now, c, before);
      enabled, users, roles, tokens := loaded.enabled, loaded.users, loaded.roles, loaded.tokens;
      store, started := db, now;
      new;
      StillPersisted(c, db, before, now);
    }

    method EnableAuth() returns (ok: bool)
      requires Valid()
      modifies this
      ensures Valid() && View() == CacheStep(old(View()), Enable) && ok == OpOk(old(View()), Enable)
    {
      hide Persisted, KeyOf, Ascii;
      if ROOT !in users {
        return false;
      }
      ok := true;
      if enabled {
        return;
      }
      PersistFlag(View(), store, started, true);
      enabled := true;
      store := store[KeyOf(EnabledSlot) := FlagRec(true)];
    }

    method DisableAuth()
      requires Valid()
      modifies this
      ensures Valid() && View() == CacheStep(old(View()), Disable)
    {
      hide Persisted, KeyOf, Ascii, Cleared;
      PersistFlag(View(), store, started, false);
      enabled := false;
      store := store[KeyOf(EnabledSlot) := FlagRec(false)];
      ForgetAllTokens(View(), store, started);
      tokens := map[];
      store := Cleared(store, TOKEN_PREFIX);
    }

    method Login(name: Name, passwordRight: bool, token: Name, expiresAt: int) returns (ok: bool)
      requires Valid()
      modifies this
      ensures var op := Authenticate(name, passwordRight, token, expiresAt);
              Valid() && View() == CacheStep(old(View()), op) && ok == OpOk(old(View()), op)
    {
      hide Persisted, KeyOf;
      if name !in users {
        return false;
      }
      if !passwordRight {
        return false;
      }
      var info := TokenInfo(token, name, expiresAt);
      PersistToken(View(), store, started, info);
      tokens := tokens[token := info];
      store := store[KeyOf(TokenSlot(token)) := TokenRec(info)];
      ok := true;
    }

    method Add(name: Name, hash: string) returns (ok: bool)
      requires Valid()
      modifies this
      ensures Valid() && View() == CacheStep(old(View()), AddUser(name, hash)) && ok == OpOk(old(View()), AddUser(name, hash))
    {
      hide Persisted, KeyOf;
      if name in users {
        return false;
      }
      SaveUser(UserInfo(name, hash, []));
      ok := true;
    }

    /** Persists a user and keeps it in the cache. */
    method SaveUser(user: UserInfo)
      requires Valid()
      modifies this
      ensures Valid() && View() == old(View()).(users := old(users)[user.name := user])
    {
      hide Persisted, KeyOf;
      PersistUser(View(), store, started, user);
      store := store[KeyOf(UserSlot(user.name)) := UserRec(user)];
      users := users[user.name := user];
    }

    method SaveRole(role: RoleInfo)
      requires Valid()
      modifies this
      ensures Valid() && View() == old(View()).(roles := old(roles)[role.name := role])
    {
      hide Persisted, KeyOf;
      PersistRole(View(), store, started, role);
      store := store[KeyOf(RoleSlot(role.name)) := RoleRec(role)];
      roles := roles[role.name := role];
    }

    method DropToken(t: Name)
      requires Valid()
      modifies this
      ensures Valid() && View() == old(View()).(tokens := old(tokens) - {t})
    {
      hide Persisted, KeyOf;
      ForgetToken(View(), store, started, t);
      tokens := tokens - {t};
      store := store - {KeyOf(TokenSlot(t))};
    }

    method DropTokensOf(name: Name)
      requires Valid()
      modifies this
      ensures Valid() && View() == old(View()).(tokens := TokensNotOf(old(tokens), name))
    {
      hide Persisted;
      var todo := tokens.Keys;
      ghost var before := tokens;
      while todo != {}
        invariant todo <= before.Keys && Valid()
        invariant enabled == old(enabled) && roles == old(roles) && users == old(users)
        invariant forall t :: t in tokens <==> t in before && (t in todo || before[t].username != name)
        invariant forall t :: t in tokens ==> tokens[t] == before[t]
        decreases |todo|
      {
        var t :| t in todo;
        if tokens[t].username == name {
          DropToken(t);
        }
        todo := todo - {t};
      }
      assert tokens == TokensNotOf(before, name);
    }

    method CleanupExpired(now: int)
      requires Valid()
      modifies this
      ensures Valid() && View() == CacheStep(old(View()), Cleanup(now))
    {
      hide Persisted, CacheStep, OpOk;
      var todo := tokens.Keys;
      ghost var before := tokens;
      while todo != {}
        invariant todo <= before.Keys && Valid()
        invariant enabled == old(enabled) && roles == old(roles) && users == old(users)
        invariant forall t :: t in tokens <==> t in before && (t in todo || before[t].expiresAt >= now)
        invariant forall t :: t in tokens ==> tokens[t] == before[t]
        decreases |todo|
      {
        var t :| t in todo;
        if tokens[t].expiresAt < now {
          DropToken(t);
        }
        todo := todo - {t};
      }
      assert tokens == TokensFrom(before, now);
      CleanupIs(old(View()), now);
    }

    method Delete(name: Name) returns (ok: bool)
      requires Valid()
      modifies this
      ensures Valid() && View() == CacheStep(old(View()), DeleteUser(name)) && ok == OpOk(old(View()), DeleteUser(name))
    {
      hide Persisted, KeyOf, Ascii, TokensNotOf;
      if name == ROOT {
        return false;
      }
      if name !in users {
        return false;
      }
      ForgetUser(View(), store, started, name);
      store := store - {KeyOf(UserSlot(name))};
      users := users - {name};
      DropTokensOf(name);
      ok := true;
    }

    method SetPassword(name: Name, hash: string) returns (ok: bool)
      requires Valid()
      modifies this
      ensures Valid() && View() == CacheStep(old(View()), ChangePassword(name, hash))
      ensures ok == OpOk(old(View()), ChangePassword(name, hash))
    {
      hide UsersStored, RolesStored, TokensStored, FlagStored, TokensNotOf, NameOk;
      if name !in users {
        return false;
      }
      SaveUser(users[name].(hash := hash));
      DropTokensOf(name);
      ok := true;
    }

    method Grant(name: Name, role: Name) returns (ok: bool)
      requires Valid()
      modifies this
      ensures Valid() && View() == CacheStep(old(View()), GrantRole(name, role)) && ok == OpOk(old(View()), GrantRole(name, role))
    {
      hide UsersStored, RolesStored, TokensStored, FlagStored, NameOk;
      if name !in users {
        return false;
      }
      if role !in roles {
        return false;
      }
      ok := true;
      if role in users[name].roles {
        return;
      }
      SaveUser(users[name].(roles := users[name].roles + [role]));
    }

    method Revoke(name: Name, role: Name) returns (ok: bool)
      requires Valid()
      modifies this
      ensures Valid() && View() == CacheStep(old(View()), RevokeRole(name, role)) && ok == OpOk(old(View()), RevokeRole(name, role))
    {
      hide UsersStored, RolesStored, TokensStored, FlagStored, NameOk;
      if name !in users {
        return false;
      }
      var newRoles, found := StripRole(users[name].roles, role);
      if !found {
        return false;
      }
      SaveUser(users[name].(roles := newRoles));
      ok := true;
    }

    method StripRole(held: seq<Name>, role: Name) returns (newRoles: seq<Name>, found: bool)
      ensures newRoles == Without(held, role) && found == (role in held)
    {
      newRoles, found := [], false;
      var i := 0;
      while i < |held|
        invariant 0 <= i <= |held| && newRoles == Without(held[..i], role) && found == (role in held[..i])
      {
        assert held[..i + 1][..i] == held[..i];
        assert held[..i + 1] == held[..i] + [held[i]];
        if held[i] == role {
          found := true;
        } else {
          newRoles := newRoles + [held[i]];
        }
        i := i + 1;
      }
      assert held[..i] == held;
    }

    method CreateRole(name: Name) returns (ok: bool)
      requires Valid()
      modifies this
      ensures Valid() && View() == CacheStep(old(View()), AddRole(name)) && ok == OpOk(old(View()), AddRole(name))
    {
      hide Persisted;
      if name in roles {
        return false;
      }
      SaveRole(RoleInfo(name, []));
      ok := true;
    }

    method RemoveRole(role: Name) returns (ok: bool)
      requires Valid()
      modifies this
      ensures Valid() && View() == CacheStep(old(View()), DeleteRole(role)) && ok == OpOk(old(View()), DeleteRole(role))
    {
      hide Persisted, KeyOf, Ascii, Without;
      if role == ROOT {
        return false;
      }
      if role !in roles {
        return false;
      }
      StripFromUsers(role);
      ForgetRole(View(), store, started, role);
      roles := roles - {role};
      store := store - {KeyOf(RoleSlot(role))};
      ok := true;
    }

    method StripFromUsers(role: Name)
      requires Valid()
      modifies this
      ensures Valid() && View() == old(View()).(users := map n | n in old(users) :: Stripped(old(users)[n], role))
    {
      hide Persisted, NameOk, Without, Stripped;
      var todo := users.Keys;
      ghost var before := users;
      while todo != {}
        invariant todo <= before.Keys == users.Keys && Valid()
        invariant enabled == old(enabled) && roles == old(roles) && tokens == old(tokens)
        invariant forall n :: n in todo ==> users[n] == before[n]
        invariant forall n :: n in users && n !in todo ==> users[n] == Stripped(before[n], role)
        decreases |todo|
      {
        var n :| n in todo;
        var newRoles, hasRole := StripRole(users[n].roles, role);
        UserNamed(View(), store, started, n);
        StrippedIs(users[n], role);
        if hasRole {
          SaveUser(users[n].(roles := newRoles));
        } else {
          NothingToStrip(users[n].roles, role);
        }
        todo := todo - {n};
      }
      assert users == map n | n in before :: Stripped(before[n], role);
    }

    method AddPermission(role: Name, perm: Permission) returns (ok: bool)
      requires Valid()
      modifies this
      ensures Valid() && View() == CacheStep(old(View()), GrantPermission(role, perm))
      ensures ok == OpOk(old(View()), GrantPermission(role, perm))
    {
      hide UsersStored, RolesStored, TokensStored, FlagStored, NameOk;
      if role !in roles {
        return false;
      }
      SaveRole(roles[role].(permissions := roles[role].permissions + [perm]));
      ok := true;
    }

    method RemovePermission(role: Name, key: Key, end: Key) returns (ok: bool)
      requires Valid()
      modifies this
      ensures Valid() && View() == CacheStep(old(View()), RevokePermission(role, key, end))
      ensures ok == OpOk(old(View()), RevokePermission(role, key, end))
    {
      hide UsersStored, RolesStored, TokensStored, FlagStored, NameOk;
      if role !in roles {
        return false;
      }
      var newPerms, found := StripPermission(roles[role].permissions, key, end);
      if !found {
        return false;
      }
      SaveRole(roles[role].(permissions := newPerms));
      ok := true;
    }

    method StripPermission(perms: seq<Permission>, key: Key, end: Key) returns (newPerms: seq<Permission>, found: bool)
      ensures newPerms == Revoked(perms, key, end)
      ensures found <==> exists i :: 0 <= i < |perms| && Covers(perms[i], key, end)
    {
      newPerms, found := [], false;
      var i := 0;
      while i < |perms|
        invariant 0 <= i <= |perms| && newPerms == Revoked(perms[..i], key, end)
        invariant found <==> exists j :: 0 <= j < i && Covers(perms[j], key, end)
      {
        assert perms[..i + 1][..i] == perms[..i];
        if Covers(perms[i], key, end) {
          found := true;
        } else {
          newPerms := newPerms + [perms[i]];
        }
        i := i + 1;
      }
      assert perms[..i] == perms;
    }
  }

  lemma {:induction false} NothingToStrip(held: seq<Name>, role: Name)
    requires role !in held
    ensures Without(held, role) == held
  {
    if held != [] {
      var n := |held| - 1;
      assert held == held[..n] + [held[n]];
      NothingToStrip(held[..n], role);
    }
  }

  lemma StrippedIs(u: UserInfo, role: Name)
    ensures Stripped(u, role) == u.(roles := Without(u.roles, role)) && u.(roles := u.roles) == u
  {
  }

  lemma CleanupIs(c: Cache, now: int)
    ensures CacheStep(c, Cleanup(now)) == c.(tokens := TokensFrom(c.tokens, now))
  {
  }

  lemma UserNamed(c: Cache, store: map<Key, Record>, started: int, n: Name)
    requires Persisted(c, store, started) && n in c.users
    ensures c.users[n].name == n
  {
  }

  lemma StillPersisted(c: Cache, store: map<Key, Record>, before: int, now: int)
    requires Persisted(c, store, before) && before <= now
    ensures Persisted(CacheStep(c, Restart(now)), store, now)
  {
    hide At, KeyOf, FlagStored, NameOk;
    var tokens := TokensFrom(Findable(c.tokens), now + 1);
    forall t
      ensures TokenStored(tokens, store, now, t)
    {
      assert TokenStored(c.tokens, store, before, t);
    }
  }

  lemma EmptyPersisted(now: int)
    ensures Persisted(EmptyCache, map[], now)
  {
    forall t
      ensures TokenStored(EmptyCache.tokens, map[], now, t)
    {
    }
  }

  // ---------------------------------------------------------------- from an empty store on

  /** The time of the last start. */
  function StartedAt(ops: seq<AuthOp>, first: int): int {
    if ops == [] then first
    else if ops[|ops| - 1].Restart? then ops[|ops| - 1].now
    else StartedAt(ops[..|ops| - 1], first)
  }

  /** The clock does not go back from one start to the next. */
  predicate ClockOk(ops: seq<AuthOp>, first: int) {
    ops == [] ||
    (var pre, op := ops[..|ops| - 1], ops[|ops| - 1];
     ClockOk(pre, first) && (op.Restart? ==> StartedAt(pre, first) <= op.now))
  }

  method Perform(m: AuthManager, op: AuthOp)
    requires m.Valid() && !op.Restart?
    modifies m
    ensures m.Valid() && m.View() == CacheStep(old(m.View()), op)
  {
    hide Persisted, CacheStep;
    match op {
      case Enable => var _ := m.EnableAuth();
      case Disable => m.DisableAuth();
      case AddUser(name, hash) => var _ := m.Add(name, hash);
      case DeleteUser(name) => var _ := m.Delete(name);
      case ChangePassword(name, hash) => var _ := m.SetPassword(name, hash);
      case GrantRole(name, role) => var _ := m.Grant(name, role);
      case RevokeRole(name, role) => var _ := m.Revoke(name, role);
      case AddRole(role) => var _ := m.CreateRole(role);
      case DeleteRole(role) => var _ := m.RemoveRole(role);
      case GrantPermission(role, perm) => var _ := m.AddPermission(role, perm);
      case RevokePermission(role, key, end) => var _ := m.RemovePermission(role, key, end);
      case Authenticate(name, passwordRight, token, expiresAt) => var _ := m.Login(name, passwordRight, token, expiresAt);
      case Cleanup(now) => m.CleanupExpired(now);
    }
  }

  /** Managers on one store, each started on what the one before has left: together they do what the
      operations do to the cache. */
  method Operate(ops: seq<AuthOp>, first: int) returns (m: AuthManager)
    requires ClockOk(ops, first)
    ensures fresh(m) && m.Valid() && m.View() == CacheRun(ops)
  {
    hide Persisted, CacheStep;
    EmptyPersisted(first);
    EmptyRestart(first);
    NothingRun();
    m := new AuthManager(map[], first, EmptyCache, first);
    var i := 0;
    while i < |ops|
      invariant 0 <= i <= |ops| && fresh(m) && m.Valid()
      invariant m.View() == CacheRun(ops[..i]) && m.started == StartedAt(ops[..i], first)
    {
      var op := ops[i];
      assert ops[..i + 1] == ops[..i] + [op];
      CacheRunSnoc(ops[..i], op);
      StartedSnoc(ops[..i], op, first);
      ClockPrefix(ops, i + 1, first);
      if op.Restart? {
        m := new AuthManager(m.store, op.now, m.View(), m.started);
      } else {
        Perform(m, op);
      }
      i := i + 1;
    }
    assert ops[..i] == ops;
  }

  lemma EmptyRestart(now: int)
    ensures CacheStep(EmptyCache, Restart(now)) == EmptyCache
  {
  }

  lemma StartedSnoc(ops: seq<AuthOp>, op: AuthOp, first: int)
    ensures StartedAt(ops + [op], first) == if op.Restart? then op.now else StartedAt(ops, first)
    ensures ClockOk(ops + [op], first) ==> (op.Restart? ==> StartedAt(ops, first) <= op.now)
  {
    assert (ops + [op])[..|ops|] == ops;
  }

  lemma {:induction false} ClockPrefix(ops: seq<AuthOp>, n: nat, first: int)
    requires ClockOk(ops, first) && n <= |ops|
    ensures ClockOk(ops[..n], first)
  {
    if n == |ops| {
      assert ops[..n] == ops;
    } else {
      ClockPrefix(ops[..|ops| - 1], n, first);
      assert ops[..|ops| - 1][..n] == ops[..n];
    }
  }
}
