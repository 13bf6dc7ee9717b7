/**
 `SignUpService.signUp`: reject a member whose username is already taken,
 otherwise save it. The member repository is an abstract store: the list of
 saved members.
 */
module SignUp {
  import opened Lang
  import opened Members

  /** What the repository holds: the members saved so far, oldest first. */
  datatype MemberStore = MemberStore(members: seq<Member>)

  /** The derived query `existsByUsername`: some saved member has exactly
      this username (a null username matches a null one, as `IS NULL`). */
  predicate ExistsByUsername(store: MemberStore, username: Option<string>) {
    exists i :: 0 <= i < |store.members| && store.members[i].username == username
  }

  /** `SignUpService.signUp`. A null member throws when its username is
      read. A taken username throws `AlreadyExistsUsernameException` carrying
      that username, before `save` is reached, so the store is untouched.
      Otherwise `save` runs exactly once on the given member, which is what
      the method returns. */
  function SignUp(store: MemberStore, member: Option<Member>): (r: (MemberStore, Result<Member, Exception>))
    ensures member.None? ==> r == (store, Err(NullPointer))
    ensures member.Some? && ExistsByUsername(store, member.value.username) ==>
      r.0 == store && r.1 == Err(AlreadyExistsUsername(member.value.username))
    ensures member.Some? && !ExistsByUsername(store, member.value.username) ==>
      r.0.members == store.members + [member.value] && r.1 == Ok(member.value)
    ensures r.1.Ok? ==> ExistsByUsername(r.0, member.value.username)
  {
    match member
    case None => (store, Err(NullPointer))
    case Some(m) =>
      var username := m.username;
      if ExistsByUsername(store, username) then (store, Err(AlreadyExistsUsername(username)))
      else
        // `repository.save(member)` of a new entity: appended and returned
        var saved := MemberStore(store.members + [m]);
        assert saved.members[|store.members|] == m;
        (saved, Ok(m))
  }

  /** No two saved members share a username. */
  predicate UniqueUsernames(store: MemberStore) {
    forall i, j :: 0 <= i < j < |store.members| ==> store.members[i].username != store.members[j].username
  }

  /** Sign-up keeps usernames unique. */
  lemma SignUpKeepsUsernamesUnique(store: MemberStore, member: Option<Member>)
    requires UniqueUsernames(store)
    ensures UniqueUsernames(SignUp(store, member).0)
  {
  }

  /** Signing up two members with the same username: the first is saved,
      the second is rejected with that username and saves nothing. */
  lemma SecondSignUpRejected(store: MemberStore, first: Member, second: Member)
    requires !ExistsByUsername(store, first.username)
    requires second.username == first.username
    ensures SignUp(store, Some(first)).1 == Ok(first)
    ensures var s1 := SignUp(store, Some(first)).0;
      SignUp(s1, Some(second)) == (s1, Err(AlreadyExistsUsername(first.username)))
  {
  }

  /** A successful sign-up adds exactly one copy of the member to the store. */
  lemma SignUpSavesOnce(store: MemberStore, member: Member)
    requires SignUp(store, Some(member)).1.Ok?
    ensures multiset(SignUp(store, Some(member)).0.members) == multiset(store.members) + multiset{member}
  {
  }
}
