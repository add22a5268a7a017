/** Who may see a repository: the listing's SQL filter, the point read by name, and the activity feed.

    Memberships and permissions are keyed by their primary keys; every repository's organization exists. */
module Visibility {
  import opened Prelude

  datatype Repo = Repo(id: string, orgId: string, name: string, visibility: string, updatedAt: int)

  datatype Event = Event(repoId: Option<string>, orgId: Option<string>)

  datatype Db = Db(
    repos: seq<Repo>,
    memberships: map<(string, string), string>,   // (org, user) -> role
    permissions: map<(string, string), string>)   // (repo, user) -> permission

  /** Primary key of `repos`. */
  ghost predicate DistinctIds(repos: seq<Repo>) {
    forall i, j :: 0 <= i < |repos| && 0 <= j < |repos| && repos[i].id == repos[j].id ==> i == j
  }

  ghost predicate ValidDb(db: Db) { DistinctIds(db.repos) }

  function OrgRoleRank(role: string): int {
    if role == "admin" then 2 else if role == "member" then 1 else 0
  }

  function RepoPermRank(permission: string): int {
    if permission == "admin" then 3 else if permission == "write" then 2 else if permission == "read" then 1 else 0
  }

  predicate HasRepoPermission(db: Db, repo: Repo, user: string, min: string) {
    if (repo.orgId, user) in db.memberships
       && OrgRoleRank(db.memberships[(repo.orgId, user)]) >= OrgRoleRank("admin") then true
    else (repo.id, user) in db.permissions
         && RepoPermRank(db.permissions[(repo.id, user)]) >= RepoPermRank(min)
  }

  function Named(repos: seq<Repo>, name: string): seq<Repo> {
    if repos == [] then []
    else (if repos[0].name == name then [repos[0]] else []) + Named(repos[1..], name)
  }

  /** Two rows are fetched; an ambiguous name is answered like a missing one. */
  function GetRepoWithOrg(db: Db, name: string): Option<Repo> {
    var rows := Named(db.repos, name);
    var fetched := rows[..Min(2, |rows|)];
    if |fetched| > 1 then None else if |fetched| == 1 then Some(fetched[0]) else None
  }

  /** Missing, ambiguous and forbidden names all give the same `not found`. */
  function RequireRepoRead(db: Db, principal: Option<string>, name: string): Result<Repo, string> {
    match GetRepoWithOrg(db, name)
    case None => Err("repository not found")
    case Some(repo) =>
      if repo.visibility == "public" then Ok(repo)
      else if principal.None? then Err("repository not found")
      else if HasRepoPermission(db, repo, principal.value, "read") then Ok(repo)
      else Err("repository not found")
  }

  // ---------------------------------------------------------------- the SQL filters

  ghost predicate NoDuplicate(db: Db, repo: Repo) {
    !exists i :: 0 <= i < |db.repos| && db.repos[i].name == repo.name && db.repos[i].id != repo.id
  }

  predicate PubliclyOrExplicitly(db: Db, user: Option<string>, repo: Repo) {
    repo.visibility == "public"
    || (user.Some?
        && (((repo.orgId, user.value) in db.memberships && db.memberships[(repo.orgId, user.value)] == "admin")
            || ((repo.id, user.value) in db.permissions
                && db.permissions[(repo.id, user.value)] in ["read", "write", "admin"])))
  }

  /** The `where` clause of the accessible-repositories query. */
  ghost predicate Listed(db: Db, user: Option<string>, repo: Repo) {
    repo in db.repos && NoDuplicate(db, repo) && PubliclyOrExplicitly(db, user, repo)
  }

  /** The `where` clause of the activity query, without its cursor part. */
  ghost predicate EventVisible(db: Db, user: Option<string>, e: Event) {
    || (e.repoId.None? && e.orgId.None?)
    || (e.repoId.None? && user.Some? && e.orgId.Some? && (e.orgId.value, user.value) in db.memberships)
    || (exists i :: 0 <= i < |db.repos| && e.repoId == Some(db.repos[i].id)
                    && NoDuplicate(db, db.repos[i]) && PubliclyOrExplicitly(db, user, db.repos[i]))
  }

  // ---------------------------------------------------------------- agreement

  lemma {:induction false} NamedSelects(repos: seq<Repo>, name: string)
    ensures forall r :: r in Named(repos, name) <==> r in repos && r.name == name
    decreases |repos|
  {
    if repos != [] {
      NamedSelects(repos[1..], name);
      assert repos == [repos[0]] + repos[1..];
    }
  }

  lemma {:induction false} ConsDistinct(repo: Repo, tail: seq<Repo>)
    requires DistinctIds(tail) && forall r :: r in tail ==> r.id != repo.id
    ensures DistinctIds([repo] + tail)
  {
    var rows := [repo] + tail;
    forall i, j | 0 <= i < |rows| && 0 <= j < |rows| && rows[i].id == rows[j].id ensures i == j {
      assert i > 0 ==> rows[i] == tail[i - 1] && tail[i - 1] in tail;
      assert j > 0 ==> rows[j] == tail[j - 1] && tail[j - 1] in tail;
    }
  }

  lemma {:induction false} UnconsDistinct(repos: seq<Repo>)
    requires repos != [] && DistinctIds(repos)
    ensures DistinctIds(repos[1..])
    ensures forall r :: r in repos[1..] ==> r.id != repos[0].id
  {
    forall r | r in repos[1..] ensures r.id != repos[0].id {
      var i :| 0 <= i < |repos[1..]| && repos[1..][i] == r;
      assert repos[i + 1] == r;
    }
  }

  lemma {:induction false} NamedDistinct(repos: seq<Repo>, name: string)
    requires DistinctIds(repos)
    ensures DistinctIds(Named(repos, name))
    decreases |repos|
  {
    if repos != [] {
      var tail := Named(repos[1..], name);
      UnconsDistinct(repos);
      NamedDistinct(repos[1..], name);
      NamedSelects(repos[1..], name);
      if repos[0].name == name {
        ConsDistinct(repos[0], tail);
      } else {
        assert Named(repos, name) == tail;
      }
    }
  }

  /** The point read by a row's own name finds that row exactly when no other row has the name. */
  lemma {:induction false} PointReadFinds(db: Db, repo: Repo)
    requires ValidDb(db) && repo in db.repos
    ensures GetRepoWithOrg(db, repo.name) == if NoDuplicate(db, repo) then Some(repo) else None
  {
    var rows := Named(db.repos, repo.name);
    NamedSelects(db.repos, repo.name);
    NamedDistinct(db.repos, repo.name);
    assert repo in rows;
    var n :| 0 <= n < |rows| && rows[n] == repo;
    if |rows| > 1 {
      var m := if n == 0 then 1 else 0;
      var other := rows[m];
      assert other in rows && other.id != rows[n].id;
      var i :| 0 <= i < |db.repos| && db.repos[i] == other;
      assert db.repos[i].name == repo.name;
    }
  }

  lemma {:induction false} PermissionAgrees(db: Db, user: string, repo: Repo)
    ensures HasRepoPermission(db, repo, user, "read")
            <==> PubliclyOrExplicitly(db, Some(user), repo.(visibility := "private"))
  {
  }

  /** In every database state and for every caller, known or anonymous: a repository is listed exactly when
      the point read by its name succeeds and returns that same repository. */
  lemma {:induction false} ListingAgreesWithPointRead(db: Db, user: Option<string>, repo: Repo)
    requires ValidDb(db)
    ensures Listed(db, user, repo) <==> repo in db.repos && RequireRepoRead(db, user, repo.name) == Ok(repo)
  {
    if repo in db.repos {
      PointReadFinds(db, repo);
      if user.Some? {
        PermissionAgrees(db, user.value, repo);
      }
    }
  }

  /** A successful point read by any name returns a listed repository of that name. */
  lemma {:induction false} PointReadIsListed(db: Db, user: Option<string>, name: string)
    requires ValidDb(db) && RequireRepoRead(db, user, name).Ok?
    ensures var repo := RequireRepoRead(db, user, name).value;
            repo.name == name && Listed(db, user, repo)
  {
    var repo := RequireRepoRead(db, user, name).value;
    NamedSelects(db.repos, name);
    assert repo in Named(db.repos, name);
    ListingAgreesWithPointRead(db, user, repo);
  }

  /** Repository-scoped activity is visible exactly to those whose point read of the repository succeeds. */
  lemma {:induction false} ActivityFollowsReads(db: Db, user: Option<string>, e: Event)
    requires ValidDb(db) && e.repoId.Some?
    ensures EventVisible(db, user, e)
            <==> exists i :: 0 <= i < |db.repos| && db.repos[i].id == e.repoId.value
                             && RequireRepoRead(db, user, db.repos[i].name) == Ok(db.repos[i])
  {
    forall i | 0 <= i < |db.repos|
      ensures NoDuplicate(db, db.repos[i]) && PubliclyOrExplicitly(db, user, db.repos[i])
              <==> RequireRepoRead(db, user, db.repos[i].name) == Ok(db.repos[i])
    {
      ListingAgreesWithPointRead(db, user, db.repos[i]);
    }
  }

  // ---------------------------------------------------------------- who may see what

  /** A repository is read by its name exactly when no other has the name and it is public, or the caller is an
      admin of its organization, or has been given one of the three permissions on it. */
  lemma {:induction false} ReadableExactly(db: Db, caller: Option<string>, repo: Repo)
    requires ValidDb(db) && repo in db.repos
    ensures RequireRepoRead(db, caller, repo.name) == Ok(repo)
            <==> && (forall r :: r in db.repos && r.name == repo.name ==> r.id == repo.id)
                 && (repo.visibility == "public"
                     || (caller.Some?
                         && (((repo.orgId, caller.value) in db.memberships
                              && db.memberships[(repo.orgId, caller.value)] == "admin")
                             || ((repo.id, caller.value) in db.permissions
                                 && (db.permissions[(repo.id, caller.value)] == "read"
                                     || db.permissions[(repo.id, caller.value)] == "write"
                                     || db.permissions[(repo.id, caller.value)] == "admin")))))
  {
    ListingAgreesWithPointRead(db, caller, repo);
    assert NoDuplicate(db, repo) <==> forall r :: r in db.repos && r.name == repo.name ==> r.id == repo.id;
    hide RequireRepoRead;
  }

  /** Writing and administering ask for a higher permission, or an organization admin. */
  lemma {:induction false} HigherPermissions(db: Db, repo: Repo, user: string)
    ensures var orgAdmin := (repo.orgId, user) in db.memberships && db.memberships[(repo.orgId, user)] == "admin";
            var given := if (repo.id, user) in db.permissions then db.permissions[(repo.id, user)] else "";
            && (HasRepoPermission(db, repo, user, "write") <==> orgAdmin || given == "write" || given == "admin")
            && (HasRepoPermission(db, repo, user, "admin") <==> orgAdmin || given == "admin")
  {
  }

  /** Activity that belongs to no repository is visible to everybody when it belongs to no organization either,
      and otherwise exactly to the members of its organization, whatever their role. */
  lemma {:induction false} OrganizationActivityExactly(db: Db, user: Option<string>, e: Event)
    requires e.repoId == None
    ensures EventVisible(db, user, e)
            <==> e.orgId == None || (user.Some? && (e.orgId.value, user.value) in db.memberships)
  {
  }

  /** A name nobody has, a name several repositories have, and a repository the caller may not read are answered
      alike. */
  lemma {:induction false} HiddenAlike(db: Db, caller: Option<string>, name: string)
    ensures RequireRepoRead(db, caller, name).Err?
            ==> RequireRepoRead(db, caller, name) == Err("repository not found")
    ensures (forall r :: r in db.repos ==> r.name != name) ==> RequireRepoRead(db, caller, name).Err?
  {
    NamedSelects(db.repos, name);
    var rows := Named(db.repos, name);
    assert |rows| > 0 ==> rows[0] in rows;
  }
}
