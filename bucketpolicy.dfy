/** The policy diff engine of the bucket-policy clients package: an IAM policy
    document (a version and an ordered list of role bindings) and the two
    in-place edits on it, BindRoleToMember and UnbindRoleFromMember.

    The pure functions Bind and Unbind say what each edit does to a document;
    the class Policy stands for the *storage.Policy the edits mutate, and its
    methods are proved to perform exactly those functions. */
module BucketPolicy {

  /** The policy format the engine writes; version 3 is the one that allows
      conditional role bindings. */
  const PolicyVersion: int := 3

  /** One role binding: a role and the ordered list of its members. */
  datatype Binding = Binding(role: string, members: seq<string>)

  /** A whole policy document, the unit that is read and written remotely. */
  datatype PolicyDoc = PolicyDoc(version: int, bindings: seq<Binding>)

  /** The zero value of a policy: no bindings and an unset version. */
  const EmptyPolicy: PolicyDoc := PolicyDoc(0, [])

  /** The declared intent of a BucketPolicyMember: this member, this role. */
  datatype MemberParameters = MemberParameters(role: string, member: string)

  /** No two bindings of the list name the same role. */
  ghost predicate UniqueRoles(bs: seq<Binding>)
  {
    forall i, j :: 0 <= i < j < |bs| ==> bs[i].role != bs[j].role
  }

  /** No member occurs twice in the list. */
  ghost predicate DistinctMembers(ms: seq<string>)
  {
    forall i, j :: 0 <= i < j < |ms| ==> ms[i] != ms[j]
  }

  /** The shape the engine keeps: one binding per role, each member once. */
  ghost predicate WellFormed(d: PolicyDoc)
  {
    && UniqueRoles(d.bindings)
    && forall k :: 0 <= k < |d.bindings| ==> DistinctMembers(d.bindings[k].members)
  }

  /** The position of the first binding for `role`, or |bs| when there is none. */
  function RoleIndex(bs: seq<Binding>, role: string): (i: nat)
    ensures i <= |bs|
    ensures i < |bs| ==> bs[i].role == role
    ensures forall k :: 0 <= k < i ==> bs[k].role != role
  {
    if bs == [] then 0
    else if bs[0].role == role then 0
    else 1 + RoleIndex(bs[1..], role)
  }

  /** The member holds the role: the binding the engine edits for `role`
      exists and lists `member`. */
  predicate Grants(d: PolicyDoc, role: string, member: string)
  {
    var i := RoleIndex(d.bindings, role);
    i < |d.bindings| && member in d.bindings[i].members
  }

  /** `ms` with every occurrence of `m` taken out, the others in their order. */
  function Without(ms: seq<string>, m: string): (r: seq<string>)
    ensures forall x :: x in r <==> x in ms && x != m
    ensures |r| <= |ms|
    ensures m in ms ==> |r| < |ms|
    ensures m !in ms ==> r == ms
  {
    if ms == [] then []
    else
      var rest := Without(ms[..|ms| - 1], m);
      assert ms == ms[..|ms| - 1] + [ms[|ms| - 1]];
      if ms[|ms| - 1] == m then rest else rest + [ms[|ms| - 1]]
  }

  /** The document after BindRoleToMember: the member is added at the tail of
      the role's binding, or a new binding for the role is added at the end of
      the list; a document that changes is stamped with PolicyVersion. */
  function Bind(d: PolicyDoc, role: string, member: string): PolicyDoc
  {
    var i := RoleIndex(d.bindings, role);
    if i == |d.bindings| then
      PolicyDoc(PolicyVersion, d.bindings + [Binding(role, [member])])
    else if member in d.bindings[i].members then
      d
    else
      PolicyDoc(PolicyVersion, d.bindings[i := Binding(role, d.bindings[i].members + [member])])
  }

  /** The document after UnbindRoleFromMember: the member is taken out of the
      role's binding, which stays in place even when it becomes empty. */
  function Unbind(d: PolicyDoc, role: string, member: string): PolicyDoc
  {
    var i := RoleIndex(d.bindings, role);
    if i == |d.bindings| || member !in d.bindings[i].members then
      d
    else
      d.(bindings := d.bindings[i := Binding(role, Without(d.bindings[i].members, member))])
  }

  /** A *storage.Policy: the document the two edits change in place. */
  class Policy {
    var version: int
    var bindings: seq<Binding>

    /** The document this object currently holds. */
    function Doc(): PolicyDoc
      reads this
    {
      PolicyDoc(version, bindings)
    }

    /** A policy literal, `&storage.Policy{Bindings: bindings, Version: version}`. */
    constructor (version: int, bindings: seq<Binding>)
      ensures Doc() == PolicyDoc(version, bindings)
    {
      this.version := version;
      this.bindings := bindings;
    }

    /** Makes sure `params.member` holds `params.role`; reports whether the policy changed. */
    method BindRoleToMember(params: MemberParameters) returns (changed: bool)
      modifies this
      ensures Doc() == Bind(old(Doc()), params.role, params.member)
      ensures changed <==> !Grants(old(Doc()), params.role, params.member)
      ensures Grants(Doc(), params.role, params.member)
      ensures WellFormed(old(Doc())) ==> WellFormed(Doc())
    {
      BindGrants(Doc(), params.role, params.member);
      BindKeepsWellFormed(Doc(), params.role, params.member);
      var i := FindRole(bindings, params.role);
      if i == |bindings| {
        bindings := bindings + [Binding(params.role, [params.member])];
        version := PolicyVersion;
        return true;
      }
      var members := bindings[i].members;
      var present := HasMember(members, params.member);
      if present {
        return false;
      }
      bindings := bindings[i := Binding(params.role, members + [params.member])];
      version := PolicyVersion;
      changed := true;
    }

    /** Makes sure `params.member` no longer holds `params.role`; reports whether the
        policy changed. */
    method UnbindRoleFromMember(params: MemberParameters) returns (changed: bool)
      modifies this
      ensures Doc() == Unbind(old(Doc()), params.role, params.member)
      ensures changed <==> Grants(old(Doc()), params.role, params.member)
      ensures !Grants(Doc(), params.role, params.member)
      ensures WellFormed(old(Doc())) ==> WellFormed(Doc())
    {
      UnbindRevokes(Doc(), params.role, params.member);
      UnbindKeepsWellFormed(Doc(), params.role, params.member);
      var i := FindRole(bindings, params.role);
      if i == |bindings| {
        return false;
      }
      var kept, found := RemoveMember(bindings[i].members, params.member);
      if !found {
        return false;
      }
      bindings := bindings[i := Binding(params.role, kept)];
      changed := true;
    }
  }

  /** Scans the bindings for the first one naming `role`. */
  method FindRole(bindings: seq<Binding>, role: string) returns (i: nat)
    ensures i == RoleIndex(bindings, role)
  {
    i := 0;
    while i < |bindings| && bindings[i].role != role
      invariant i <= |bindings|
      invariant forall k :: 0 <= k < i ==> bindings[k].role != role
    {
      i := i + 1;
    }
  }

  /** Scans a member list for `member`. */
  method HasMember(members: seq<string>, member: string) returns (present: bool)
    ensures present <==> member in members
  {
    var j := 0;
    while j < |members| && members[j] != member
      invariant j <= |members|
      invariant member !in members[..j]
    {
      assert members[..j + 1] == members[..j] + [members[j]];
      j := j + 1;
    }
    assert j == |members| ==> members[..j] == members;
    present := j < |members|;
  }

  /** Copies a member list without `member`, and reports whether it was there. */
  method RemoveMember(members: seq<string>, member: string) returns (kept: seq<string>, found: bool)
    ensures kept == Without(members, member)
    ensures found <==> member in members
  {
    kept, found := [], false;
    var j := 0;
    while j < |members|
      invariant j <= |members|
      invariant kept == Without(members[..j], member)
      invariant found <==> member in members[..j]
    {
      assert members[..j + 1][..j] == members[..j];
      assert members[..j + 1] == members[..j] + [members[j]];
      if members[j] == member {
        found := true;
      } else {
        kept := kept + [members[j]];
      }
      j := j + 1;
    }
    assert members[..j] == members;
  }

  // ---------------------------------------------------------------------------
  // What the edits guarantee

  /** After Bind the member holds the role. */
  lemma BindGrants(d: PolicyDoc, role: string, member: string)
    ensures Grants(Bind(d, role, member), role, member)
  {
    var i := RoleIndex(d.bindings, role);
    var r := Bind(d, role, member);
    if i == |d.bindings| {
      assert r.bindings[i].role == role;
      assert RoleIndex(r.bindings, role) == i;
    } else {
      assert r.bindings[i].role == role;
      assert RoleIndex(r.bindings, role) == i;
    }
  }

  /** Bind leaves the document alone exactly when the member already holds
      the role; so `changed` tells whether the document changed. */
  lemma BindNoopIffGranted(d: PolicyDoc, role: string, member: string)
    ensures Bind(d, role, member) == d <==> Grants(d, role, member)
  {
    var i := RoleIndex(d.bindings, role);
    if i < |d.bindings| && member !in d.bindings[i].members {
      var r := Bind(d, role, member);
      assert |r.bindings[i].members| == |d.bindings[i].members| + 1;
    }
  }

  /** Binding twice is binding once. */
  lemma BindIdempotent(d: PolicyDoc, role: string, member: string)
    ensures Bind(Bind(d, role, member), role, member) == Bind(d, role, member)
  {
    BindGrants(d, role, member);
    BindNoopIffGranted(Bind(d, role, member), role, member);
  }

  lemma UniqueRoleIndex(bs: seq<Binding>, k: nat, role: string)
    requires UniqueRoles(bs)
    requires k < |bs| && bs[k].role == role
    ensures RoleIndex(bs, role) == k
  {
  }

  /** A role no binding names gets a new binding {role: [member]} at the end;
      the earlier bindings are untouched. */
  lemma BindNewRole(d: PolicyDoc, role: string, member: string)
    requires forall k :: 0 <= k < |d.bindings| ==> d.bindings[k].role != role
    ensures Bind(d, role, member) == PolicyDoc(PolicyVersion, d.bindings + [Binding(role, [member])])
  {
    assert RoleIndex(d.bindings, role) == |d.bindings|;
  }

  /** A role whose binding lacks the member gets the member at the tail of that
      binding; every other binding and the order of the list stay as they were. */
  lemma BindExistingRole(d: PolicyDoc, k: nat, member: string)
    requires UniqueRoles(d.bindings)
    requires k < |d.bindings| && member !in d.bindings[k].members
    ensures Bind(d, d.bindings[k].role, member)
            == PolicyDoc(PolicyVersion, d.bindings[k := Binding(d.bindings[k].role, d.bindings[k].members + [member])])
  {
    UniqueRoleIndex(d.bindings, k, d.bindings[k].role);
  }

  /** A member already in the role's binding leaves the whole document as it was. */
  lemma BindAlreadyBound(d: PolicyDoc, k: nat, member: string)
    requires UniqueRoles(d.bindings)
    requires k < |d.bindings| && member in d.bindings[k].members
    ensures Bind(d, d.bindings[k].role, member) == d
  {
    UniqueRoleIndex(d.bindings, k, d.bindings[k].role);
  }

  /** Bind keeps one binding per role and each member once in a binding; the
      role ends up with exactly one binding, holding the member exactly once. */
  lemma BindKeepsWellFormed(d: PolicyDoc, role: string, member: string)
    ensures WellFormed(d) ==> WellFormed(Bind(d, role, member))
    ensures WellFormed(d) ==>
      var r := Bind(d, role, member);
      exists k :: 0 <= k < |r.bindings| && r.bindings[k].role == role
        && multiset(r.bindings[k].members)[member] == 1
  {
    if WellFormed(d) {
      var i := RoleIndex(d.bindings, role);
      var r := Bind(d, role, member);
      if i == |d.bindings| {
        assert r.bindings[i].members == [member];
      } else if member in d.bindings[i].members {
        DistinctCountOne(d.bindings[i].members, member);
      } else {
        var ms := d.bindings[i].members;
        assert r.bindings[i].members == ms + [member];
        assert multiset(ms)[member] == 0;
      }
      assert r.bindings[i].role == role;
      if i < |d.bindings| && member in d.bindings[i].members {
        assert multiset(r.bindings[i].members)[member] == 1;
      }
    }
  }

  lemma DistinctCountOne(ms: seq<string>, m: string)
    requires DistinctMembers(ms) && m in ms
    ensures multiset(ms)[m] == 1
  {
    var j :| 0 <= j < |ms| && ms[j] == m;
    assert ms == ms[..j] + [m] + ms[j + 1..];
    assert m !in ms[..j] && m !in ms[j + 1..];
    calc {
      multiset(ms)[m];
      multiset(ms[..j])[m] + multiset([m])[m] + multiset(ms[j + 1..])[m];
      1;
    }
  }

  /** After Unbind the member no longer holds the role. */
  lemma UnbindRevokes(d: PolicyDoc, role: string, member: string)
    ensures !Grants(Unbind(d, role, member), role, member)
  {
    var i := RoleIndex(d.bindings, role);
    var r := Unbind(d, role, member);
    if i < |d.bindings| && member in d.bindings[i].members {
      assert r.bindings[i].role == role;
      assert forall k :: 0 <= k < i ==> r.bindings[k] == d.bindings[k];
      assert RoleIndex(r.bindings, role) == i;
    }
  }

  /** Unbind leaves the document alone exactly when the member does not hold
      the role; so `changed` tells whether the document changed. */
  lemma UnbindNoopIffNotGranted(d: PolicyDoc, role: string, member: string)
    ensures Unbind(d, role, member) == d <==> !Grants(d, role, member)
  {
    var i := RoleIndex(d.bindings, role);
    if i < |d.bindings| && member in d.bindings[i].members {
      var r := Unbind(d, role, member);
      assert |r.bindings[i].members| < |d.bindings[i].members|;
    }
  }

  /** Unbinding twice is unbinding once. */
  lemma UnbindIdempotent(d: PolicyDoc, role: string, member: string)
    ensures Unbind(Unbind(d, role, member), role, member) == Unbind(d, role, member)
  {
    UnbindRevokes(d, role, member);
    UnbindNoopIffNotGranted(Unbind(d, role, member), role, member);
  }

  /** Unbind never removes, adds or reorders bindings and never touches the
      version: only the members of one binding can change. */
  lemma UnbindKeepsBindings(d: PolicyDoc, role: string, member: string)
    ensures var r := Unbind(d, role, member);
      && r.version == d.version
      && |r.bindings| == |d.bindings|
      && (forall k :: 0 <= k < |d.bindings| ==> r.bindings[k].role == d.bindings[k].role)
      && (forall k :: 0 <= k < |d.bindings| && d.bindings[k].role != role ==> r.bindings[k] == d.bindings[k])
  {
  }

  /** Without keeps every other member as many times as it occurred. */
  lemma {:induction false} WithoutMultiset(ms: seq<string>, m: string)
    ensures multiset(Without(ms, m)) == multiset(ms)[m := 0]
    decreases |ms|
  {
    if ms != [] {
      var init := ms[..|ms| - 1];
      assert ms == init + [ms[|ms| - 1]];
      WithoutMultiset(init, m);
      assert multiset(ms) == multiset(init) + multiset{ms[|ms| - 1]};
    }
  }

  /** On a duplicate-free member list, Without takes out exactly the one
      position holding the member. */
  lemma {:induction false} WithoutAt(ms: seq<string>, j: nat)
    requires DistinctMembers(ms) && j < |ms|
    ensures Without(ms, ms[j]) == ms[..j] + ms[j + 1..]
    decreases |ms|
  {
    var n := |ms| - 1;
    var init := ms[..n];
    assert ms == init + [ms[n]];
    if j == n {
      assert ms[j] !in init;
      assert ms[j + 1..] == [];
    } else {
      assert DistinctMembers(init);
      WithoutAt(init, j);
      assert init[j] == ms[j];
      assert ms[n] != ms[j];
      assert init[..j] == ms[..j];
      assert init[j + 1..] + [ms[n]] == ms[j + 1..];
    }
  }

  /** Unbinding a member of a well-formed document removes exactly that
      member from its role's binding, keeping the others in order and the
      binding itself, even when it becomes empty. */
  lemma UnbindRemovesMember(d: PolicyDoc, k: nat, j: nat)
    requires WellFormed(d)
    requires k < |d.bindings| && j < |d.bindings[k].members|
    ensures var b := d.bindings[k];
      Unbind(d, b.role, b.members[j])
        == d.(bindings := d.bindings[k := Binding(b.role, b.members[..j] + b.members[j + 1..])])
  {
    var b := d.bindings[k];
    UniqueRoleIndex(d.bindings, k, b.role);
    WithoutAt(b.members, j);
  }

  /** A member that does not hold the role, whether its role's binding lacks
      it or it is bound only to other roles, leaves the document as it was. */
  lemma UnbindNotBound(d: PolicyDoc, role: string, member: string)
    requires forall k :: 0 <= k < |d.bindings| && d.bindings[k].role == role ==> member !in d.bindings[k].members
    ensures Unbind(d, role, member) == d
  {
  }

  lemma DistinctWithout(ms: seq<string>, m: string)
    requires DistinctMembers(ms)
    ensures DistinctMembers(Without(ms, m))
    decreases |ms|
  {
    if ms != [] {
      var init := ms[..|ms| - 1];
      assert DistinctMembers(init);
      DistinctWithout(init, m);
      assert ms == init + [ms[|ms| - 1]];
      assert ms[|ms| - 1] !in init;
    }
  }

  /** Unbind keeps one binding per role and each member once in a binding. */
  lemma UnbindKeepsWellFormed(d: PolicyDoc, role: string, member: string)
    ensures WellFormed(d) ==> WellFormed(Unbind(d, role, member))
  {
    var i := RoleIndex(d.bindings, role);
    if WellFormed(d) && i < |d.bindings| && member in d.bindings[i].members {
      DistinctWithout(d.bindings[i].members, member);
    }
  }

  /** Unbind undoes Bind: a binding added for a new role stays behind empty,
      and a member appended to an existing binding is taken out again, so the
      document differs from the original at most in its version. */
  lemma UnbindAfterBind(d: PolicyDoc, role: string, member: string)
    requires !Grants(d, role, member)
    ensures var r := Unbind(Bind(d, role, member), role, member);
      && r.version == PolicyVersion
      && if RoleIndex(d.bindings, role) == |d.bindings|
         then r.bindings == d.bindings + [Binding(role, [])]
         else r.bindings == d.bindings
  {
    var i := RoleIndex(d.bindings, role);
    var b := Bind(d, role, member);
    if i == |d.bindings| {
      assert b.bindings == d.bindings + [Binding(role, [member])];
      assert b.bindings[i].role == role;
      assert RoleIndex(b.bindings, role) == i;
      assert Without([member], member) == [];
    } else {
      var ms := d.bindings[i].members;
      assert b.bindings == d.bindings[i := Binding(role, ms + [member])];
      assert b.bindings[i].role == role;
      assert RoleIndex(b.bindings, role) == i;
      assert b.bindings[i].members == ms + [member];
      assert (ms + [member])[..|ms|] == ms;
      assert Without(ms + [member], member) == Without(ms, member);
      assert d.bindings[i := Binding(role, ms)] == d.bindings;
    }
  }

  // ---------------------------------------------------------------------------
  // Repeated binding

  /** The number of bindings for `role`. */
  function RoleCount(bs: seq<Binding>, role: string): (n: nat)
    ensures n <= |bs|
    ensures n == 0 <==> forall k :: 0 <= k < |bs| ==> bs[k].role != role
  {
    if bs == [] then 0
    else RoleCount(bs[..|bs| - 1], role) + (if bs[|bs| - 1].role == role then 1 else 0)
  }

  /** The document after binding each member of `ms` to `role`, in order. */
  function BindEach(d: PolicyDoc, role: string, ms: seq<string>): PolicyDoc
    decreases |ms|
  {
    if ms == [] then d else BindEach(Bind(d, role, ms[0]), role, ms[1..])
  }

  lemma {:induction false} RoleCountUpdate(bs: seq<Binding>, i: nat, b: Binding, role: string)
    requires i < |bs| && bs[i].role == b.role
    ensures RoleCount(bs[i := b], role) == RoleCount(bs, role)
    decreases |bs|
  {
    var n := |bs| - 1;
    assert bs[i := b][..n] == if i < n then bs[..n][i := b] else bs[..n];
    if i < n {
      RoleCountUpdate(bs[..n], i, b, role);
    }
  }

  lemma RoleCountAppend(bs: seq<Binding>, b: Binding, role: string)
    ensures RoleCount(bs + [b], role) == RoleCount(bs, role) + (if b.role == role then 1 else 0)
  {
    assert (bs + [b])[..|bs|] == bs;
  }

  /** Bind creates a binding for a role only when none exists, and never one
      for any other role. */
  lemma BindRoleCount(d: PolicyDoc, role: string, member: string, other: string)
    ensures RoleCount(Bind(d, role, member).bindings, other)
            == if other == role && RoleCount(d.bindings, role) == 0 then 1
               else RoleCount(d.bindings, other)
  {
    var i := RoleIndex(d.bindings, role);
    if i == |d.bindings| {
      RoleCountAppend(d.bindings, Binding(role, [member]), other);
    } else if member !in d.bindings[i].members {
      RoleCountUpdate(d.bindings, i, Binding(role, d.bindings[i].members + [member]), other);
    }
  }

  /** However many members are bound to one role in a row, a document with at
      most one binding for that role ends with exactly one. */
  lemma {:induction false} BindEachOneBinding(d: PolicyDoc, role: string, ms: seq<string>)
    requires RoleCount(d.bindings, role) <= 1
    ensures RoleCount(BindEach(d, role, ms).bindings, role) == if ms == [] then RoleCount(d.bindings, role) else 1
    decreases |ms|
  {
    if ms != [] {
      BindRoleCount(d, role, ms[0], role);
      BindEachOneBinding(Bind(d, role, ms[0]), role, ms[1..]);
    }
  }
}
