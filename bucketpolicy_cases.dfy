/** The table-driven cases of TestBindRoleToMember and TestUnbindRoleFromMember,
    restated against the Policy methods: each case builds the input policy, performs
    the edit, and asserts the expected `changed` flag and whole document. */
module BucketPolicyCases {
  import opened BucketPolicy

  const TestRole := "roles/storage.objectAdmin"
  const TestMember := "serviceAccount:perfect-test-sa@wesaas-playground.iam.gserviceaccount.com"
  const OtherMember := "some-other-member"
  const AnotherMember := "yet-another-member"
  const OtherRole := "some-other-role"

  /** Binding into an empty policy, a policy that already binds the member,
      a role binding without the member, and a policy without the role. */
  method BindCases() returns (outcomes: seq<bool>)
    ensures outcomes == [true, false, true, true]
  {
    var params := MemberParameters(TestRole, TestMember);

    var empty := new Policy(0, []);
    var c1 := empty.BindRoleToMember(params);
    assert empty.Doc() == PolicyDoc(PolicyVersion, [Binding(TestRole, [TestMember])]);

    var bound := new Policy(PolicyVersion, [Binding(TestRole, [TestMember])]);
    var c2 := bound.BindRoleToMember(params);
    assert bound.Doc() == PolicyDoc(PolicyVersion, [Binding(TestRole, [TestMember])]);

    var others := new Policy(PolicyVersion, [Binding(TestRole, [OtherMember, AnotherMember])]);
    assert TestMember !in [OtherMember, AnotherMember];
    assert [OtherMember, AnotherMember] + [TestMember] == [OtherMember, AnotherMember, TestMember];
    var c3 := others.BindRoleToMember(params);
    assert others.Doc() == PolicyDoc(PolicyVersion, [Binding(TestRole, [OtherMember, AnotherMember, TestMember])]);

    var otherRole := new Policy(PolicyVersion, [Binding(OtherRole, [OtherMember, AnotherMember])]);
    var c4 := otherRole.BindRoleToMember(params);
    assert otherRole.Doc() == PolicyDoc(PolicyVersion,
      [Binding(OtherRole, [OtherMember, AnotherMember]), Binding(TestRole, [TestMember])]);

    outcomes := [c1, c2, c3, c4];
  }

  /** Unbinding from an empty policy, from a binding with the member alone,
      from a binding with the member among others, from a binding without the
      member, and from a policy that binds the member to another role only. */
  method UnbindCases() returns (outcomes: seq<bool>)
    ensures outcomes == [false, true, true, false, false]
  {
    var params := MemberParameters(TestRole, TestMember);

    var empty := new Policy(0, []);
    var c1 := empty.UnbindRoleFromMember(params);
    assert empty.Doc() == EmptyPolicy;

    var single := new Policy(PolicyVersion, [Binding(TestRole, [TestMember])]);
    var c2 := single.UnbindRoleFromMember(params);
    assert single.Doc() == PolicyDoc(PolicyVersion, [Binding(TestRole, [])]);

    var several := new Policy(PolicyVersion, [Binding(TestRole, [OtherMember, TestMember, AnotherMember])]);
    ghost var ms := [OtherMember, TestMember, AnotherMember];
    assert ms[..2][..1] == [OtherMember] && ms[..2] == [OtherMember, TestMember];
    assert Without(ms, TestMember) == [OtherMember, AnotherMember];
    var c3 := several.UnbindRoleFromMember(params);
    assert several.Doc() == PolicyDoc(PolicyVersion, [Binding(TestRole, [OtherMember, AnotherMember])]);

    var notOurs := new Policy(PolicyVersion, [Binding(TestRole, [OtherMember, AnotherMember])]);
    var c4 := notOurs.UnbindRoleFromMember(params);
    assert notOurs.Doc() == PolicyDoc(PolicyVersion, [Binding(TestRole, [OtherMember, AnotherMember])]);

    var otherRole := new Policy(PolicyVersion, [Binding(OtherRole, [TestMember])]);
    var c5 := otherRole.UnbindRoleFromMember(params);
    assert otherRole.Doc() == PolicyDoc(PolicyVersion, [Binding(OtherRole, [TestMember])]);

    outcomes := [c1, c2, c3, c4, c5];
  }
}
