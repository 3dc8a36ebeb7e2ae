/**
 * The project-side domain operations (crud/project.py): random code
 * generation, project creation, the projects of a user, and issuing an
 * invitation code. The clock is the `now` parameter and the random source
 * is given as the choices it made.
 */
module CrudProject {
  import opened Wrappers
  import opened Model
  import Rows

  /** The `n` consecutive characters starting at code point `first`. */
  function CharRange(first: nat, n: nat): (r: string)
    requires first + n <= 0xD800
    ensures |r| == n
    ensures forall i :: 0 <= i < n ==> r[i] as int == first + i
  {
    seq(n, i requires 0 <= i < n => (first + i) as char)
  }

  /** `string.ascii_letters + string.digits`: a-z, A-Z, then 0-9. */
  const Alphabet: string := CharRange('a' as nat, 26) + CharRange('A' as nat, 26) + CharRange('0' as nat, 10)

  predicate IsAsciiAlphanumeric(c: char) {
    ('a' <= c <= 'z') || ('A' <= c <= 'Z') || ('0' <= c <= '9')
  }

  lemma AlphabetIsAlphanumeric()
    ensures |Alphabet| == 62
    ensures forall i :: 0 <= i < |Alphabet| ==> IsAsciiAlphanumeric(Alphabet[i])
  {
    forall i | 0 <= i < |Alphabet| ensures IsAsciiAlphanumeric(Alphabet[i]) {
      if i < 26 {
        assert Alphabet[i] as int == 'a' as int + i;
      } else if i < 52 {
        assert Alphabet[i] as int == 'A' as int + i - 26;
      } else {
        assert Alphabet[i] as int == '0' as int + i - 52;
      }
    }
  }

  /**
   * generate_random_string(length): character i is `random.choice` over the
   * alphabet; `picks[i]` is the index that choice drew (taken modulo the
   * alphabet size, so every sequence of draws is a possible run).
   */
  function GenerateRandomString(length: nat, picks: seq<nat>): (r: string)
    requires |picks| == length
    ensures |r| == length
    ensures forall i :: 0 <= i < |r| ==> IsAsciiAlphanumeric(r[i]) && r[i] == Alphabet[picks[i] % |Alphabet|]
  {
    AlphabetIsAlphanumeric();
    if length == 0 then ""
    else [Alphabet[picks[0] % |Alphabet|]] + GenerateRandomString(length - 1, picks[1..])
  }

  /** Some project the user is a member of already carries `name`. */
  predicate UserHasProjectNamed(s: Store, userId: UserId, name: string) {
    exists k :: k in s.projects && s.projects[k].name == name && (k, userId) in s.members
  }

  /**
   * create_project: the length check comes before any lookup; the name
   * check is scoped to the user's own projects; the creator becomes the
   * OWNER member.
   */
  function CreateProject(s: Store, userId: UserId, name: string, now: int): (r: Result<(Store, Project), Error>)
    requires Valid(s)
    ensures |name| < 4 ==> r == Failure(TooShortProjectNameError)
    ensures |name| >= 4 ==> (r.Failure? <==> UserHasProjectNamed(s, userId, name))
    ensures |name| >= 4 && r.Failure? ==> r.error == ExistingProjectNameError
    ensures r.Success? ==>
              var (s', p) := r.value;
              && p.id !in s.projects
              && p == Project(p.id, name, now, now)
              && s'.projects.Keys == s.projects.Keys + {p.id}
              && s'.projects[p.id] == p
              && (forall k :: k in s.projects ==> s'.projects[k] == s.projects[k])
              && s'.members.Keys == s.members.Keys + {(p.id, userId)}
              && s'.members[(p.id, userId)] == ProjectMember(p.id, userId, OWNER, now)
              && (forall k :: k in s.members ==> s'.members[k] == s.members[k])
              && s'.(projects := s.projects, members := s.members, nextId := s.nextId) == s
              && Valid(s')
  {
    if |name| < 4 then Failure(TooShortProjectNameError)
    else if UserHasProjectNamed(s, userId, name) then Failure(ExistingProjectNameError)
    else
      var p := Project(s.nextId, name, now, now);
      var m := ProjectMember(p.id, userId, OWNER, now);
      assert (p.id, userId) !in s.members;
      var s' := s.(projects := s.projects[p.id := p], members := s.members[(p.id, userId) := m], nextId := s.nextId + 1);
      assert KeysMatch(s') && IdsBelowCounter(s');
      Success((s', p))
  }

  /** get_projects: the projects joined with the user's membership rows, in row order. */
  function GetProjects(s: Store, userId: UserId): (r: seq<Project>)
    ensures forall p :: p in r <==> exists k :: k in s.projects && s.projects[k] == p && (k, userId) in s.members
    ensures Valid(s) ==> forall i, j :: 0 <= i < j < |r| ==> r[i].id < r[j].id
  {
    var keys := set k | k in s.projects && (k, userId) in s.members;
    var r := Rows.Select(s.projects, keys);
    assert Valid(s) ==> forall i :: 0 <= i < |r| ==> r[i].id == Rows.Ascending(keys)[i];
    r
  }

  /** After create_project the user's projects include the new one. */
  lemma CreatedProjectIsListed(s: Store, userId: UserId, name: string, now: int)
    requires Valid(s)
    requires CreateProject(s, userId, name, now).Success?
    ensures var (s', p) := CreateProject(s, userId, name, now).value;
            p in GetProjects(s', userId)
  {
    var (s', p) := CreateProject(s, userId, name, now).value;
    assert s'.projects[p.id] == p && (p.id, userId) in s'.members;
  }

  /** The same user cannot create two projects of the same name. */
  lemma CreateProjectTwiceFails(s: Store, userId: UserId, name: string, t1: int, t2: int)
    requires Valid(s)
    requires CreateProject(s, userId, name, t1).Success?
    ensures CreateProject(CreateProject(s, userId, name, t1).value.0, userId, name, t2) == Failure(ExistingProjectNameError)
  {
    var (s', p) := CreateProject(s, userId, name, t1).value;
    assert s'.projects[p.id].name == name && (p.id, userId) in s'.members;
  }

  // ---------------------------------------------------------------------
  // Invitation codes
  // ---------------------------------------------------------------------

  /** The rows the purge keeps: the delete removes rows with `expired_at < now`. */
  function Unexpired(codes: seq<InvitationCode>, now: int): (r: seq<InvitationCode>)
    ensures forall c :: c in r <==> c in codes && c.expiredAt >= now
    ensures CodesDistinct(codes) ==> CodesDistinct(r)
  {
    if codes == [] then []
    else
      var rest := Unexpired(codes[1..], now);
      if codes[0].expiredAt >= now then
        KeptHeadDistinct(codes, rest);
        [codes[0]] + rest
      else rest
  }

  /** A head whose code no later row carries stays distinct in front of rows taken from the tail. */
  lemma KeptHeadDistinct(codes: seq<InvitationCode>, rest: seq<InvitationCode>)
    requires codes != []
    requires forall c :: c in rest ==> c in codes[1..]
    requires CodesDistinct(codes) ==> CodesDistinct(rest)
    ensures CodesDistinct(codes) ==> CodesDistinct([codes[0]] + rest)
  {
    if CodesDistinct(codes) {
      var r := [codes[0]] + rest;
      forall i, j | 0 <= i < j < |r| ensures r[i].code != r[j].code {
        if i == 0 {
          var k := Rows.IndexOf(codes[1..], r[j]);
          assert codes[k + 1] == r[j];
        } else {
          assert r[i] == rest[i - 1] && r[j] == rest[j - 1];
        }
      }
    }
  }

  /** The code strings of a sequence of rows. */
  function CodeStrings(codes: seq<InvitationCode>): set<string> {
    set i | 0 <= i < |codes| :: codes[i].code
  }

  /** The first row of `projectId` that has not expired at `now`. */
  function FirstActive(codes: seq<InvitationCode>, projectId: int, now: int): (r: Option<InvitationCode>)
    ensures r.Some? ==> r.value in codes && r.value.projectId == projectId && r.value.expiredAt > now
    ensures r.None? <==> forall c :: c in codes ==> !(c.projectId == projectId && c.expiredAt > now)
  {
    if codes == [] then None
    else if codes[0].projectId == projectId && codes[0].expiredAt > now then Some(codes[0])
    else FirstActive(codes[1..], projectId, now)
  }

  /** The first draw of the generator that no stored row carries: where the collision loop stops. */
  function FirstFresh(draws: seq<string>, taken: set<string>): (r: Option<string>)
    ensures r.Some? ==> r.value in draws && r.value !in taken
    ensures r.None? <==> forall d :: d in draws ==> d in taken
  {
    if draws == [] then None
    else if draws[0] !in taken then Some(draws[0])
    else FirstFresh(draws[1..], taken)
  }

  /** The length generate_random_string is called with. */
  const CodeLength: nat := 10

  /** The codes the collision loop can draw, in turn: generate_random_string() of each run of picks. */
  function Draws(picks: seq<seq<nat>>): (r: seq<string>)
    requires forall i :: 0 <= i < |picks| ==> |picks[i]| == CodeLength
    ensures |r| == |picks|
    ensures forall i :: 0 <= i < |r| ==> r[i] == GenerateRandomString(CodeLength, picks[i])
  {
    seq(|picks|, i requires 0 <= i < |picks| => GenerateRandomString(CodeLength, picks[i]))
  }

  predicate IsOwner(s: Store, userId: UserId, projectId: int) {
    (projectId, userId) in s.members && s.members[(projectId, userId)].role == OWNER
  }

  /**
   * get_invitation_code. `picks` are the choices made by the successive
   * calls of generate_random_string(), each of ten characters; the
   * collision loop ends at the first drawn code no stored row carries,
   * which the requires says exists. The purge of
   * expired rows is committed before the owner check, so the store that
   * comes back with the UnauthorizedError is the purged one.
   */
  function GetInvitationCode(s: Store, userId: UserId, projectId: int, duration: int,
                             redeemLimit: Option<int>, now: int, picks: seq<seq<nat>>)
    : (r: (Store, Result<string, Error>))
    requires duration > 0
    requires redeemLimit.None? || redeemLimit.value > 0
    requires forall i :: 0 <= i < |picks| ==> |picks[i]| == CodeLength
    requires exists d :: d in Draws(picks) && d !in CodeStrings(Unexpired(s.codes, now))
    ensures var (s', res) := r;
            var kept := Unexpired(s.codes, now);
            && (!IsOwner(s, userId, projectId) ==> s' == s.(codes := kept) && res == Failure(UnauthorizedError(OWNER)))
            && (IsOwner(s, userId, projectId) && FirstActive(kept, projectId, now).Some? ==>
                  s' == s.(codes := kept) && res == Success(FirstActive(kept, projectId, now).value.code))
            && (IsOwner(s, userId, projectId) && FirstActive(kept, projectId, now).None? ==>
                  && res.Success?
                  && res.value in Draws(picks)
                  && |res.value| == CodeLength
                  && (forall i :: 0 <= i < |res.value| ==> IsAsciiAlphanumeric(res.value[i]))
                  && res.value !in CodeStrings(kept)
                  && s' == s.(codes := kept + [InvitationCode(res.value, projectId, now, now + duration, redeemLimit)]))
            && (CodesDistinct(s.codes) ==> CodesDistinct(s'.codes))
  {
    var kept := Unexpired(s.codes, now);
    var purged := s.(codes := kept);
    if !IsOwner(s, userId, projectId) then (purged, Failure(UnauthorizedError(OWNER)))
    else
      match FirstActive(kept, projectId, now)
      case Some(c) => (purged, Success(c.code))
      case None =>
        var code := FirstFresh(Draws(picks), CodeStrings(kept)).value;
        var row := InvitationCode(code, projectId, now, now + duration, redeemLimit);
        var codes' := kept + [row];
        assert CodesDistinct(kept) ==> CodesDistinct(codes') by {
          if CodesDistinct(kept) {
            forall i, j | 0 <= i < j < |codes'| ensures codes'[i].code != codes'[j].code {
              if j == |kept| {
                assert codes'[i] == kept[i];
              }
            }
          }
        }
        (s.(codes := codes'), Success(code))
  }

  /** A second request at the same instant hands back the code the first one issued, whatever redeem limit it asks for. */
  lemma InvitationCodeReused(s: Store, userId: UserId, projectId: int, duration: int,
                             l1: Option<int>, l2: Option<int>, d2: int, now: int, picks: seq<seq<nat>>, picks2: seq<seq<nat>>)
    requires duration > 0 && d2 > 0
    requires l1.None? || l1.value > 0
    requires l2.None? || l2.value > 0
    requires forall i :: 0 <= i < |picks| ==> |picks[i]| == CodeLength
    requires exists d :: d in Draws(picks) && d !in CodeStrings(Unexpired(s.codes, now))
    requires IsOwner(s, userId, projectId)
    requires forall i :: 0 <= i < |picks2| ==> |picks2[i]| == CodeLength
    ensures var (s1, c1) := GetInvitationCode(s, userId, projectId, duration, l1, now, picks);
            (exists d :: d in Draws(picks2) && d !in CodeStrings(Unexpired(s1.codes, now))) ==>
            var (s2, c2) := GetInvitationCode(s1, userId, projectId, d2, l2, now, picks2);
            c2 == c1 && s2 == s1
  {
    var (s1, c1) := GetInvitationCode(s, userId, projectId, duration, l1, now, picks);
    var kept := Unexpired(s.codes, now);
    var first := FirstActive(kept, projectId, now);
    if first.None? {
      var row := s1.codes[|s1.codes| - 1];
      FirstActiveOfAppend(kept, row, projectId, now);
      ActiveCodeReturned(s1, userId, projectId, d2, l2, now, picks2, row);
    } else {
      ActiveCodeReturned(s1, userId, projectId, d2, l2, now, picks2, first.value);
    }
  }

  /** An owner whose stored rows have all not expired is handed the first active row's code, and nothing is written. */
  lemma ActiveCodeReturned(s: Store, userId: UserId, projectId: int, duration: int, redeemLimit: Option<int>,
                           now: int, picks: seq<seq<nat>>, c: InvitationCode)
    requires duration > 0
    requires redeemLimit.None? || redeemLimit.value > 0
    requires IsOwner(s, userId, projectId)
    requires forall x :: x in s.codes ==> x.expiredAt >= now
    requires FirstActive(s.codes, projectId, now) == Some(c)
    requires forall i :: 0 <= i < |picks| ==> |picks[i]| == CodeLength
    ensures (exists d :: d in Draws(picks) && d !in CodeStrings(Unexpired(s.codes, now))) ==>
            GetInvitationCode(s, userId, projectId, duration, redeemLimit, now, picks) == (s, Success(c.code))
  {
    UnexpiredKeepsAll(s.codes, now);
  }

  lemma UnexpiredKeepsAll(codes: seq<InvitationCode>, now: int)
    requires forall c :: c in codes ==> c.expiredAt >= now
    ensures Unexpired(codes, now) == codes
  {
    if codes != [] {
      UnexpiredKeepsAll(codes[1..], now);
      assert codes == [codes[0]] + codes[1..];
    }
  }

  lemma FirstActiveOfAppend(codes: seq<InvitationCode>, c: InvitationCode, projectId: int, now: int)
    requires FirstActive(codes, projectId, now).None?
    requires c.projectId == projectId && c.expiredAt > now
    ensures FirstActive(codes + [c], projectId, now) == Some(c)
  {
    if codes != [] {
      assert (codes + [c])[1..] == codes[1..] + [c];
      FirstActiveOfAppend(codes[1..], c, projectId, now);
    }
  }
}
