/** What holds after a run of authentication operations, told by the operations themselves. */
module AuthRuns {
  import opened Bytes
  import opened AuthManagers
  import Histories

  /** Something a caller can find out about the manager. */
  datatype Fact =
    | HasPassword(name: Name, hash: string)
    | HasSession(token: Name, username: Name, expiresAt: int)
    | HoldsRole(name: Name, role: Name)
    | HasPermission(role: Name, perm: Permission)
    | RoleExists(role: Name)
    | AuthEnabled

  predicate Holds(c: Cache, f: Fact) {
    match f
    case HasPassword(n, h) => n in c.users && c.users[n].hash == h
    case HasSession(t, u, e) => t in c.tokens && c.tokens[t] == TokenInfo(t, u, e)
    case HoldsRole(n, r) => n in c.users && r in c.users[n].roles
    case HasPermission(r, p) => r in c.roles && p in c.roles[r].permissions
    case RoleExists(r) => r in c.roles
    case AuthEnabled => c.enabled
  }

  /** The operation brings the fact about. */
  predicate Starts(c: Cache, op: AuthOp, f: Fact) {
    match f
    case HasPassword(n, h) => (op == AddUser(n, h) && n !in c.users) || (op == ChangePassword(n, h) && n in c.users)
    case HasSession(t, u, e) => op == Authenticate(u, true, t, e) && u in c.users
    case HoldsRole(n, r) => op == GrantRole(n, r) && n in c.users && r in c.roles
    case HasPermission(r, p) => op == GrantPermission(r, p) && r in c.roles
    case RoleExists(r) => op == AddRole(r)
    case AuthEnabled => op == Enable && ROOT in c.users
  }

  /** The operation ends the fact, unless it starts it anew. The root user and role cannot be deleted; a
      restart loses the records under names its scans cannot find, and tokens that have run out. */
  predicate Ends(c: Cache, op: AuthOp, f: Fact) {
    match f
    case HasPassword(n, _) => Deleted(op, n) || Rehashed(op, n) || (op.Restart? && !NameOk(n))
    case HasSession(t, u, e) =>
      || op == Disable
      || (u in c.users && (Deleted(op, u) || Rehashed(op, u)))
      || (op.Authenticate? && op.passwordRight && op.token == t && op.name in c.users)
      || (op.Cleanup? && e < op.now)
      || (op.Restart? && (!NameOk(t) || e <= op.now))
    case HoldsRole(n, r) =>
      || op == RevokeRole(n, r)
      || (op == DeleteRole(r) && r != ROOT && r in c.roles)
      || Deleted(op, n) || (op.Restart? && !NameOk(n))
    case HasPermission(r, p) =>
      || op == RevokePermission(r, p.key, p.end)
      || (op == DeleteRole(r) && r != ROOT)
      || (op.Restart? && !NameOk(r))
    case RoleExists(r) => (op == DeleteRole(r) && r != ROOT) || (op.Restart? && !NameOk(r))
    case AuthEnabled => op == Disable
  }

  predicate Deleted(op: AuthOp, n: Name) {
    op == DeleteUser(n) && n != ROOT
  }

  predicate Rehashed(op: AuthOp, n: Name) {
    op.ChangePassword? && op.name == n
  }

  lemma {:induction false} RevokedMember(ps: seq<Permission>, key: Key, end: Key)
    ensures forall p :: p in Revoked(ps, key, end) <==> p in ps && !(p.key == key && p.end == end)
  {
    if ps != [] {
      var n := |ps| - 1;
      assert ps == ps[..n] + [ps[n]];
      RevokedMember(ps[..n], key, end);
    }
  }

  predicate OnUsers(op: AuthOp) {
    op.AddUser? || op.DeleteUser? || op.ChangePassword? || op.GrantRole? || op.RevokeRole? || op.DeleteRole? || op.Restart?
  }

  predicate OnRoles(op: AuthOp) {
    op.AddRole? || op.DeleteRole? || op.GrantPermission? || op.RevokePermission? || op.Restart?
  }

  predicate OnTokens(op: AuthOp) {
    op.Disable? || op.DeleteUser? || op.ChangePassword? || op.Authenticate? || op.Cleanup? || op.Restart?
  }

  lemma Untouched(c: Cache, op: AuthOp)
    ensures !OnUsers(op) ==> CacheStep(c, op).users == c.users
    ensures !OnRoles(op) ==> CacheStep(c, op).roles == c.roles
    ensures !OnTokens(op) ==> CacheStep(c, op).tokens == c.tokens
  {
    hide OpOk, Ascii, NameOk, Without, Revoked;
  }

  lemma PasswordStep(c: Cache, op: AuthOp, f: Fact)
    requires f.HasPassword? && OnUsers(op)
    ensures Holds(CacheStep(c, op), f) <==> Starts(c, op, f) || (Holds(c, f) && !Ends(c, op, f))
  {
    hide Ascii, NameOk, Without, Revoked;
  }

  lemma SessionStep(c: Cache, op: AuthOp, f: Fact)
    requires f.HasSession? && OnTokens(op)
    ensures Holds(CacheStep(c, op), f) <==> Starts(c, op, f) || (Holds(c, f) && !Ends(c, op, f))
  {
    hide Ascii, NameOk, Without, Revoked;
  }

  lemma RoleGranted(c: Cache, op: AuthOp, f: Fact)
    requires f.HoldsRole? && OnUsers(op) && !op.RevokeRole? && !op.DeleteRole?
    ensures Holds(CacheStep(c, op), f) <==> Starts(c, op, f) || (Holds(c, f) && !Ends(c, op, f))
  {
    hide Ascii, NameOk, Without, Revoked;
  }

  lemma RoleStripped(c: Cache, op: AuthOp, f: Fact)
    requires f.HoldsRole? && (op.RevokeRole? || op.DeleteRole?)
    ensures Holds(CacheStep(c, op), f) <==> Starts(c, op, f) || (Holds(c, f) && !Ends(c, op, f))
  {
    hide Ascii, NameOk, Without, Revoked;
    if f.name in c.users {
      WithoutMember(c.users[f.name].roles, op.role);
    }
  }

  lemma PermissionRevoked(c: Cache, op: AuthOp, f: Fact)
    requires f.HasPermission? && op.RevokePermission?
    ensures Holds(CacheStep(c, op), f) <==> Starts(c, op, f) || (Holds(c, f) && !Ends(c, op, f))
  {
    hide Ascii, NameOk, Without, Revoked;
    if op.role in c.roles {
      var ps := c.roles[op.role].permissions;
      RevokedMember(ps, op.key, op.end);
      if f.role == op.role && f.perm in ps && f.perm.key == op.key && f.perm.end == op.end {
        var i :| 0 <= i < |ps| && ps[i] == f.perm;
        assert Covers(ps[i], op.key, op.end);
      }
    }
  }

  lemma PermissionStep(c: Cache, op: AuthOp, f: Fact)
    requires f.HasPermission? && OnRoles(op) && !op.RevokePermission?
    ensures Holds(CacheStep(c, op), f) <==> Starts(c, op, f) || (Holds(c, f) && !Ends(c, op, f))
  {
    hide Ascii, NameOk, Without, Revoked;
  }

  lemma RoleStep(c: Cache, op: AuthOp, f: Fact)
    requires f.RoleExists? && OnRoles(op)
    ensures Holds(CacheStep(c, op), f) <==> Starts(c, op, f) || (Holds(c, f) && !Ends(c, op, f))
  {
    hide Ascii, NameOk, Without, Revoked;
  }

  lemma EnabledStep(c: Cache, op: AuthOp, f: Fact)
    requires f.AuthEnabled?
    ensures Holds(CacheStep(c, op), f) <==> Starts(c, op, f) || (Holds(c, f) && !Ends(c, op, f))
  {
    hide Ascii, NameOk, Without, Revoked;
  }

  /** The operation works on the part of the cache the fact is about. */
  predicate Concerns(op: AuthOp, f: Fact) {
    match f
    case HasPassword(_, _) => OnUsers(op)
    case HasSession(_, _, _) => OnTokens(op)
    case HoldsRole(_, _) => OnUsers(op)
    case HasPermission(_, _) => OnRoles(op)
    case RoleExists(_) => OnRoles(op)
    case AuthEnabled => true
  }

  lemma OtherStep(c: Cache, op: AuthOp, f: Fact)
    requires !Concerns(op, f)
    ensures Holds(CacheStep(c, op), f) <==> Starts(c, op, f) || (Holds(c, f) && !Ends(c, op, f))
  {
    hide CacheStep, NameOk, Ascii;
    Untouched(c, op);
  }

  lemma StepHolds(c: Cache, op: AuthOp, f: Fact)
    ensures Holds(CacheStep(c, op), f) <==> Starts(c, op, f) || (Holds(c, f) && !Ends(c, op, f))
  {
    hide CacheStep, Holds, Starts, Ends;
    if !Concerns(op, f) {
      OtherStep(c, op, f);
    } else {
      match f
      case HasPassword(_, _) => PasswordStep(c, op, f);
      case HasSession(_, _, _) => SessionStep(c, op, f);
      case HoldsRole(_, _) => if op.RevokeRole? || op.DeleteRole? { RoleStripped(c, op, f); } else { RoleGranted(c, op, f); }
      case HasPermission(_, _) => if op.RevokePermission? { PermissionRevoked(c, op, f); } else { PermissionStep(c, op, f); }
      case RoleExists(_) => RoleStep(c, op, f);
      case AuthEnabled => EnabledStep(c, op, f);
    }
  }

  lemma RunHolds(ops: seq<AuthOp>, f: Fact, k: nat)
    requires k < |ops|
    ensures var c := CacheRun(ops[..k]);
            Holds(CacheRun(ops[..k + 1]), f) <==> Starts(c, ops[k], f) || (Holds(c, f) && !Ends(c, ops[k], f))
  {
    hide CacheStep, Holds, Starts, Ends, CacheRun;
    assert ops[..k + 1] == ops[..k] + [ops[k]];
    CacheRunSnoc(ops[..k], ops[k]);
    StepHolds(CacheRun(ops[..k]), ops[k], f);
  }

  /** Step i of the run started the fact and none since has ended it. */
  predicate StandsSince(ops: seq<AuthOp>, f: Fact, i: int) {
    && 0 <= i < |ops| && Starts(CacheRun(ops[..i]), ops[i], f)
    && forall j :: i < j < |ops| ==> !Ends(CacheRun(ops[..j]), ops[j], f)
  }

  /** After every run of operations, restarts among them, a fact holds exactly when some operation started
      it and none since has ended it. */
  lemma FactExact(ops: seq<AuthOp>, f: Fact)
    ensures Holds(CacheRun(ops), f) <==> exists i :: StandsSince(ops, f, i)
  {
    hide CacheStep, Holds, Starts, Ends, CacheRun;
    var fact := (k: nat) => k <= |ops| && Holds(CacheRun(ops[..k]), f);
    var starts := (k: nat) => k < |ops| && Starts(CacheRun(ops[..k]), ops[k], f);
    var ends := (k: nat) => k < |ops| && Ends(CacheRun(ops[..k]), ops[k], f);
    forall k | 0 <= k < |ops|
      ensures fact(k + 1) <==> starts(k) || (fact(k) && !ends(k))
    {
      RunHolds(ops, f, k);
    }
    NothingHolds(f);
    assert ops[..0] == [] && ops[..|ops|] == ops;
    Histories.Since(|ops|, fact, starts, ends);
    forall i | 0 <= i < |ops|
      ensures StandsSince(ops, f, i) <==> starts(i) && forall j :: i < j < |ops| ==> !ends(j)
    {
      assert forall j :: i < j < |ops| ==> (ends(j) <==> Ends(CacheRun(ops[..j]), ops[j], f));
    }
  }

  lemma NothingHolds(f: Fact)
    ensures !Holds(CacheRun([]), f)
  {
  }

  /** A password change takes: the new hash is in force and no session of that user is left. */
  lemma PasswordChanged(ops: seq<AuthOp>, name: Name, hash: string)
    requires name in CacheRun(ops).users
    ensures var c := CacheRun(ops + [ChangePassword(name, hash)]);
            && name in c.users && c.users[name].hash == hash && c.users[name].roles == CacheRun(ops).users[name].roles
            && forall t :: t in c.tokens ==> c.tokens[t].username != name
  {
    hide CacheRun;
    CacheRunSnoc(ops, ChangePassword(name, hash));
  }

  lemma RootStep(c: Cache, op: AuthOp)
    requires ROOT in c.users
    ensures ROOT in CacheStep(c, op).users
  {
    hide CacheStep, Ascii;
    var h := c.users[ROOT].hash;
    RootIsFound();
    StepHolds(c, op, HasPassword(ROOT, h));
    if op.ChangePassword? {
      StepHolds(c, op, HasPassword(ROOT, op.hash));
    }
  }

  /** Once there is a root user there always is. */
  lemma {:induction false} RootStays(ops: seq<AuthOp>, n: nat)
    requires n <= |ops| && ROOT in CacheRun(ops[..n]).users
    ensures ROOT in CacheRun(ops).users
    decreases |ops|
  {
    hide CacheStep, CacheRun;
    if n == |ops| {
      assert ops[..n] == ops;
    } else {
      var pre, op := ops[..|ops| - 1], ops[|ops| - 1];
      assert pre[..n] == ops[..n] && ops == pre + [op];
      RootStays(pre, n);
      CacheRunSnoc(pre, op);
      RootStep(CacheRun(pre), op);
    }
  }
}
