# Bucket IAM policy reconciler, modelled in Dafny

This project models the core of the GCP provider's BucketPolicy support:

- **The policy diff engine** (`BucketPolicy`, file `bucketpolicy.dfy`). An IAM policy document is a version plus an ordered list of bindings. Each binding is a role with an ordered member list. `BindRoleToMember` makes sure a member holds a role. It appends the member at the tail of the role's binding, or appends a new binding `{role: [member]}` at the end of the list. `UnbindRoleFromMember` takes the member out of the role's binding. It keeps that binding even when it becomes empty. Both edit a `*storage.Policy` in place and return `changed`. Here the policy is the class `Policy`, whose fields the two methods reassign. Each method is proved to compute the pure function `Bind` or `Unbind`. The properties are proved as lemmas about those functions: what holds afterwards, when `changed` is true, idempotence, which bindings stay untouched, order preservation, Unbind undoing Bind, and the one-binding-per-role invariant.
- **The test tables** (`BucketPolicyCases`, file `bucketpolicy_cases.dfy`). Every case of `TestBindRoleToMember` and `TestUnbindRoleFromMember` is restated against the methods, with its expected `changed` flag and its expected whole document.
- **The reconciliation driver** (`StorageController`, file `controller.dfy`). This is `bucketPolicyExternal` with its four phases:
  - Observe classifies the fetched policy as not found, empty, up to date or stale.
  - Create writes a policy generated from an empty one.
  - Update fetches the policy again and writes only when it is stale.
  - Delete overwrites the policy with an empty one.
  
  The storage service is the class `BucketsService`. It holds the policy of every existing bucket, whether reads or writes fail, and a log of every request. The managed resource is a sum type, so "not a BucketPolicy" is the variant `OtherManaged`. `IsEmpty`, `IsUpToDate` and `GenerateBucketPolicyInstance` are function-typed fields of `BucketPolicyExternal`, so every result holds whatever they compute.

Decisions the tests leave open, and what the model does:

- `Bind` stamps `Version` with `PolicyVersion` (3) whenever it changes the document. It leaves a document it does not change identical, including its version. `Unbind` never touches the version.
- Both edits act on the first binding that names the role.
- `Unbind` removes every occurrence of the member. `UnbindRemovesMember` proves that, on a duplicate-free member list, this is exactly the removal of the one position holding the member.

Points of the controller code the model follows:

- Create and Update write the policy that `GenerateBucketPolicyInstance` produces; they do not call `BindRoleToMember` (pkg/controller/storage/bucketpolicy.go:124-126, 152-153).
- Update returns a not-found read as an error (pkg/controller/storage/bucketpolicy.go:139-142). Observe does not: it filters not-found to "does not exist" (line 97).

## Model

| member | source | states |
|---|---|---|
| BucketPolicy.RoleIndex | pkg/clients/bucketpolicy/bucketpolicy_test.go:86-162 | the position of the first binding naming the role, or the list length when no binding names it |
| BucketPolicy.Without | pkg/clients/bucketpolicy/bucketpolicy_test.go:234-269 | the member list with the member taken out: exactly the other members remain, it shrinks iff the member was there, and it is unchanged when the member is absent |
| BucketPolicy.Policy.constructor | pkg/clients/bucketpolicy/bucketpolicy_test.go:59-70 | a policy literal holds exactly the given version and bindings |
| BucketPolicy.Policy.BindRoleToMember | pkg/clients/bucketpolicy/bucketpolicy_test.go:164-173 | the policy becomes Bind of the old one; `changed` is true iff the member did not already hold the role; afterwards it does; well-formedness is kept |
| BucketPolicy.Policy.UnbindRoleFromMember | pkg/clients/bucketpolicy/bucketpolicy_test.go:339-348 | the policy becomes Unbind of the old one; `changed` is true iff the member held the role; afterwards it does not; well-formedness is kept |
| BucketPolicy.FindRole | pkg/clients/bucketpolicy/bucketpolicy_test.go:86-162 | the scan of the bindings stops at the first binding naming the role, or at the end when none does |
| BucketPolicy.HasMember | pkg/clients/bucketpolicy/bucketpolicy_test.go:53-121 | the scan of a member list reports the member present iff it is in the list |
| BucketPolicy.RemoveMember | pkg/clients/bucketpolicy/bucketpolicy_test.go:203-337 | the copied list is the member list without the member, and `found` says whether it was there |
| BucketPolicy.BindGrants | pkg/clients/bucketpolicy/bucketpolicy_test.go:30-162 | after Bind the member holds the role |
| BucketPolicy.BindNoopIffGranted | pkg/clients/bucketpolicy/bucketpolicy_test.go:53-85 | Bind leaves the whole document identical iff the member already holds the role, so `changed` is exactly "the document changed" |
| BucketPolicy.BindIdempotent | pkg/clients/bucketpolicy/bucketpolicy_test.go:53-85 | binding twice gives the same document as binding once |
| BucketPolicy.BindNewRole | pkg/clients/bucketpolicy/bucketpolicy_test.go:122-162 | with no binding for the role, Bind appends `{role: [member]}` at the end, keeps every earlier binding and sets version 3 (the empty policy is the case with no bindings) |
| BucketPolicy.BindExistingRole | pkg/clients/bucketpolicy/bucketpolicy_test.go:86-121 | when the role's binding lacks the member, the member goes at the tail of that binding, no binding is added, and all other bindings and their order are kept |
| BucketPolicy.BindAlreadyBound | pkg/clients/bucketpolicy/bucketpolicy_test.go:53-85 | when the role's binding already lists the member, the document is unchanged |
| BucketPolicy.BindKeepsWellFormed | pkg/clients/bucketpolicy/bucketpolicy_test.go:122-162 | Bind keeps one binding per role and distinct members; the role then has a binding listing the member exactly once |
| BucketPolicy.UnbindRevokes | pkg/clients/bucketpolicy/bucketpolicy_test.go:203-269 | after Unbind the member no longer holds the role |
| BucketPolicy.UnbindNoopIffNotGranted | pkg/clients/bucketpolicy/bucketpolicy_test.go:270-337 | Unbind leaves the whole document identical iff the member does not hold the role |
| BucketPolicy.UnbindIdempotent | pkg/clients/bucketpolicy/bucketpolicy_test.go:203-269 | unbinding twice gives the same document as unbinding once |
| BucketPolicy.UnbindKeepsBindings | pkg/clients/bucketpolicy/bucketpolicy_test.go:203-233 | Unbind keeps the version, the number of bindings and every role in place (an emptied binding stays), and it changes no binding of another role |
| BucketPolicy.WithoutMultiset | pkg/clients/bucketpolicy/bucketpolicy_test.go:234-269 | removing a member keeps every other member exactly as many times as it occurred |
| BucketPolicy.WithoutAt | pkg/clients/bucketpolicy/bucketpolicy_test.go:234-269 | on a duplicate-free list, removing a member equals cutting out its one position |
| BucketPolicy.UnbindRemovesMember | pkg/clients/bucketpolicy/bucketpolicy_test.go:234-269 | in a well-formed document, Unbind removes exactly that member from its role's binding, keeps the other members in order and keeps the binding |
| BucketPolicy.UnbindNotBound | pkg/clients/bucketpolicy/bucketpolicy_test.go:270-337 | when the role's binding lacks the member, or the member is bound only to other roles, the document is unchanged, for every document, duplicate roles included |
| BucketPolicy.UnbindKeepsWellFormed | pkg/clients/bucketpolicy/bucketpolicy_test.go:234-269 | Unbind keeps one binding per role and distinct members |
| BucketPolicy.UnbindAfterBind | pkg/clients/bucketpolicy/bucketpolicy_test.go:122-233 | Unbind undoes a Bind that changed the document: a new binding stays behind empty; otherwise the bindings return to the original; only the version may differ; this holds for every document, duplicate roles included |
| BucketPolicy.BindRoleCount | pkg/clients/bucketpolicy/bucketpolicy_test.go:122-162 | Bind adds a binding for the role only when it has none, and never a binding for any other role |
| BucketPolicy.BindEachOneBinding | pkg/clients/bucketpolicy/bucketpolicy_test.go:86-162 | binding any non-empty series of members to one role leaves exactly one binding for it, given at most one before |
| BucketPolicyCases.BindCases | pkg/clients/bucketpolicy/bucketpolicy_test.go:30-162 | the four bind cases give their expected `changed` flags and whole documents |
| BucketPolicyCases.UnbindCases | pkg/clients/bucketpolicy/bucketpolicy_test.go:190-337 | the five unbind cases give their expected `changed` flags and whole documents (the empty policy keeps version 0) |
| StorageController.BucketsService.GetIamPolicyOf | pkg/controller/storage/bucketpolicy.go:139-142 | a read logs one request and changes nothing else |
| StorageController.BucketsService.SetIamPolicyOf | pkg/controller/storage/bucketpolicy.go:126-129 | a write logs one request and, when accepted, replaces the bucket's whole policy; nothing else changes |
| StorageController.Observed | pkg/controller/storage/bucketpolicy.go:95-114 | an error always comes with an empty observation; the resource exists iff a non-empty policy was read and checked; it is up to date iff the check said so; a transport error or a check error is returned; not-found is no error |
| StorageController.UpdateDecision | pkg/controller/storage/bucketpolicy.go:139-158 | Update fails iff the read failed (including not-found) or the check failed; it writes iff the check said stale, and what it writes is the generated policy from the fetched one |
| StorageController.BucketPolicyExternal.Observe | pkg/controller/storage/bucketpolicy.go:89-115 | a non-BucketPolicy gives errNotBucketPolicy and no request; otherwise exactly one read, reported as Observed; the policies are never written |
| StorageController.BucketPolicyExternal.Create | pkg/controller/storage/bucketpolicy.go:117-132 | a non-BucketPolicy gives errNotBucketPolicy and no request; otherwise exactly one write, of the policy generated from an empty one; a rejected write returns errSetPolicy and changes nothing |
| StorageController.BucketPolicyExternal.Update | pkg/controller/storage/bucketpolicy.go:134-159 | a non-BucketPolicy gives errNotBucketPolicy and no request; otherwise one read first; no write on a failed read, a failed check or an up-to-date policy; otherwise exactly one write, of the generated policy |
| StorageController.BucketPolicyExternal.Delete | pkg/controller/storage/bucketpolicy.go:161-171 | a non-BucketPolicy gives errNotBucketPolicy and no request; otherwise exactly one write, and the bucket's whole policy becomes empty, whatever bindings it held; a rejected write returns errSetPolicy |
| StorageController.ObserveAgreesWithUpdate | pkg/controller/storage/bucketpolicy.go:104-158 | on a non-empty policy, Observe says up to date iff Update skips, stale iff Update writes, and errors iff Update fails |
| StorageController.NotFoundObserveVersusUpdate | pkg/controller/storage/bucketpolicy.go:95-142 | a missing bucket is "does not exist" to Observe but an error to Update |
| StorageController.ObserveEmptyIgnoresCheck | pkg/controller/storage/bucketpolicy.go:99-106 | on an empty policy Observe reports non-existence whatever IsUpToDate would return |
| StorageController.BucketPolicyExternal.DeleteThenObserve | pkg/controller/storage/bucketpolicy.go:161-171 | when the service accepts the write and answers the read, and IsEmpty holds of the empty policy, Delete followed by Observe leaves the bucket with the empty policy and reports the resource absent with no error |

## Left out

- The implementation of `BindRoleToMember` and `UnbindRoleFromMember`, in a file of the clients package that is not part of this model, is not modelled line by line. Their behaviour is taken from the test tables. The choices above (version stamping, first binding for a role, removing every occurrence) are this model's, and they agree with every test case.
- The clients package's `policyVersion` constant is defined in a file of the clients package that is not part of this model. Its value 3 is taken from the controller's constant of the same name (pkg/controller/storage/bucketpolicy.go:43).
- Bindings are values in a sequence, not shared `*storage.PolicyBindings` references, so aliasing of a binding between two policies is not modelled.
- The distinction between a nil slice and an empty slice is not modelled (the emptied binding has `Members: []string{}`).
- The policy fields other than version and bindings (etag, kind, resource id, binding conditions) are not modelled.
- The nil-able member of `BucketPolicyMemberParameters` is a plain string, so a nil member is not modelled.
- `SetupBucketPolicy` and `Connect` are controller wiring, credential lookup and client construction, and are not modelled.
- `IsEmpty`, `IsUpToDate` and `GenerateBucketPolicyInstance` are not part of this model. They are abstract function fields. `GenerateBucketPolicyInstance` edits its argument in place; here it is the policy it leaves behind.
- The storage service's behaviour is this model's assumption. A read fails, finds no bucket, or returns the bucket's policy. A write fails when writes fail or the bucket does not exist.
- Cancellation through the context, transport timeouts and concurrent writers (last write wins) are not modelled.
- Error texts and wrapping are not modelled. Errors are the four kinds of the controller, and a read error records only whether it was not-found.
- The status conditions (`Available`, `Creating`), the event recorder, the logger and the always-empty `ExternalCreation` and `ExternalUpdate` values are not modelled.
