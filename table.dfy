/** The table operations of `db.rs` as functions of the table's contents:
    which record a scan picks, what a login returns, how a password reset and
    a grade entry change the rows, and which rows the grade listing shows.
    The methods of `Db.Database` are proved equal to these. */
module Table {
  import opened DbTypes

  /** Index of the first element satisfying `p`: what every
      `for i in 0..len { if … { …; return } }` scan of the table finds, and
      what a re-asking prompt settles on. */
  function FirstIndex<T>(s: seq<T>, p: T -> bool): (r: Option<nat>)
    ensures r.Some? ==> r.value < |s| && p(s[r.value])
    ensures r.Some? ==> forall j :: 0 <= j < r.value ==> !p(s[j])
    ensures r.None? ==> forall j :: 0 <= j < |s| ==> !p(s[j])
  {
    if |s| == 0 then None
    else if p(s[0]) then Some(0)
    else match FirstIndex(s[1..], p)
      case None => None
      case Some(k) => Some(k + 1)
  }

  /** The first element satisfying `p` is at `i`. */
  lemma FirstIndexAt<T>(s: seq<T>, p: T -> bool, i: nat)
    requires i < |s| && p(s[i])
    requires forall j :: 0 <= j < i ==> !p(s[j])
    ensures FirstIndex(s, p) == Some(i)
  {
  }

  /** The value a prompt with the given acceptance test returns, when the user
      types `answers` in turn: the first answer that passes; `None` when none
      does (the prompt keeps waiting, so nothing after it happens). */
  function Prompted<T>(answers: seq<T>, test: T -> bool): (r: Option<T>)
    ensures r.Some? ==> test(r.value) && r.value in answers
    ensures r.None? ==> forall a :: a in answers ==> !test(a)
    ensures r.Some? ==> exists i :: 0 <= i < |answers| && answers[i] == r.value
                                    && forall j :: 0 <= j < i ==> !test(answers[j])
  {
    match FirstIndex(answers, test)
    case None => None
    case Some(i) => Some(answers[i])
  }

  /** Row selection of the reset and grade-entry scans. */
  function HasEmail(email: string): User -> bool {
    (u: User) => u.email == email
  }

  /** Row selection of the login scan: both the email and the password must fit. */
  function Credentials(verify: Verifier, email: string, pw: string): User -> bool {
    (u: User) => u.email == email && verify(u.pwHash, pw)
  }

  predicate HasRecord(users: seq<User>, email: string) {
    exists j :: 0 <= j < |users| && users[j].email == email
  }

  /** Row `j` is the first one whose email is `email`. */
  predicate IsFirstWithEmail(users: seq<User>, email: string, j: int) {
    && 0 <= j < |users|
    && users[j].email == email
    && forall k :: 0 <= k < j ==> users[k].email != email
  }

  /** The `{id, email}` projection of a row. */
  function Identity(u: User): UserDTO {
    UserDTO(u.id, u.email)
  }

  /** The result of a login with identifier `email` and password `pw`. */
  function Authenticate(users: seq<User>, verify: Verifier, email: string, pw: string): (r: Option<UserDTO>)
    // the super-user is checked against the constant hash and the table is never consulted
    ensures email == Admin ==> r == (if verify(AdminHash, pw) then Some(AdminIdentity) else None)
    // otherwise: no row with this email accepts the password
    ensures email != Admin && r.None? ==>
              forall i :: 0 <= i < |users| ==> !(users[i].email == email && verify(users[i].pwHash, pw))
    // or the identity of the first row, in table order, that has this email and accepts it
    ensures email != Admin && r.Some? ==>
              exists i :: 0 <= i < |users| && users[i].email == email && verify(users[i].pwHash, pw)
                          && r.value == Identity(users[i])
                          && forall j :: 0 <= j < i ==> !(users[j].email == email && verify(users[j].pwHash, pw))
  {
    if email == Admin then
      if verify(AdminHash, pw) then Some(AdminIdentity) else None
    else
      match FirstIndex(users, Credentials(verify, email, pw))
      case None => None
      case Some(i) => Some(Identity(users[i]))
  }

  /** The table after `reset_password` installs `h` for `email`. */
  function WithHash(users: seq<User>, email: string, h: Hash): (r: seq<User>)
    ensures |r| == |users|
    // only the hash field of a row can change
    ensures forall j :: 0 <= j < |r| ==> r[j] == users[j].(pwHash := r[j].pwHash)
    // the first row with this email gets the new hash
    ensures forall j :: IsFirstWithEmail(users, email, j) ==> r[j].pwHash == h
    // every other row, later duplicates included, is untouched
    ensures forall j :: 0 <= j < |r| && !IsFirstWithEmail(users, email, j) ==> r[j] == users[j]
  {
    match FirstIndex(users, HasEmail(email))
    case None => users
    case Some(i) => users[i := users[i].(pwHash := h)]
  }

  /** The table after `enter_grade` records `g` for `email`. */
  function WithGrade(users: seq<User>, email: string, g: real): (r: seq<User>)
    ensures |r| == |users|
    // only the grade list of a row can change
    ensures forall j :: 0 <= j < |r| ==> r[j] == users[j].(grades := r[j].grades)
    // the first row with this email gets `g` at the end of its grades
    ensures forall j :: IsFirstWithEmail(users, email, j) ==> r[j].grades == users[j].grades + [g]
    // every other row is untouched
    ensures forall j :: 0 <= j < |r| && !IsFirstWithEmail(users, email, j) ==> r[j] == users[j]
  {
    match FirstIndex(users, HasEmail(email))
    case None => users
    case Some(i) => users[i := users[i].(grades := users[i].grades + [g])]
  }

  /** The row `create_account` appends. */
  function NewUser(id: string, email: string, name: string, h: Hash): User {
    User(id, email, name, h, [])
  }

  /** What `show_grades` prints for one row (the printed mean is not modelled). */
  datatype GradeReport = GradeReport(email: string, grades: seq<real>)

  function Report(u: User): GradeReport {
    GradeReport(u.email, u.grades)
  }

  /** Whether `show_grades` prints row `u` for `actor`; `allowed` is the
      answer of the policy engine for `ShowGrades`. */
  predicate Shown(u: User, actor: UserDTO, allowed: bool) {
    |u.grades| > 0 && (allowed || actor.id == u.id)
  }

  /** The reports `show_grades` prints, in table order. */
  function Visible(users: seq<User>, actor: UserDTO, allowed: bool): (r: seq<GradeReport>)
    ensures |r| <= |users|
  {
    if |users| == 0 then []
    else
      var last := users[|users| - 1];
      Visible(users[..|users| - 1], actor, allowed) + (if Shown(last, actor, allowed) then [Report(last)] else [])
  }

  /** Listing a concatenation lists the two parts one after the other: the
      listing keeps table order. */
  lemma {:induction false} VisibleAppend(a: seq<User>, b: seq<User>, actor: UserDTO, allowed: bool)
    ensures Visible(a + b, actor, allowed) == Visible(a, actor, allowed) + Visible(b, actor, allowed)
    decreases |b|
  {
    if |b| == 0 {
      assert a + b == a;
    } else {
      var b' := b[..|b| - 1];
      assert (a + b)[..|a + b| - 1] == a + b';
      assert (a + b)[|a + b| - 1] == b[|b| - 1];
      VisibleAppend(a, b', actor, allowed);
    }
  }

  /** A single row is listed once when the rule lets it through, and not at
      all otherwise; with `VisibleAppend` this fixes the listing row by row. */
  lemma VisibleSingle(u: User, actor: UserDTO, allowed: bool)
    ensures Visible([u], actor, allowed) == (if Shown(u, actor, allowed) then [Report(u)] else [])
  {
  }

  /** `rep` is the report of a row that the rule lets through. */
  predicate FromShownRow(users: seq<User>, actor: UserDTO, allowed: bool, rep: GradeReport) {
    exists i :: 0 <= i < |users| && Shown(users[i], actor, allowed) && rep == Report(users[i])
  }

  /** Every printed report is that of a row the rule lets through. */
  lemma {:induction false} VisibleSound(users: seq<User>, actor: UserDTO, allowed: bool)
    ensures forall k :: 0 <= k < |Visible(users, actor, allowed)| ==>
              FromShownRow(users, actor, allowed, Visible(users, actor, allowed)[k])
  {
    var v := Visible(users, actor, allowed);
    if |users| == 0 {
      assert v == [];
    } else {
      var init := users[..|users| - 1];
      VisibleSound(init, actor, allowed);
      var vInit := Visible(init, actor, allowed);
      forall k | 0 <= k < |v|
        ensures FromShownRow(users, actor, allowed, v[k])
      {
        if k < |vInit| {
          assert FromShownRow(init, actor, allowed, vInit[k]);
          var i :| 0 <= i < |init| && Shown(init[i], actor, allowed) && vInit[k] == Report(init[i]);
          assert users[i] == init[i];
        } else {
          var last := |users| - 1;
          assert Shown(users[last], actor, allowed) && v[k] == Report(users[last]);
        }
      }
    }
  }

  /** Every row the rule lets through is printed. */
  lemma {:induction false} VisibleComplete(users: seq<User>, actor: UserDTO, allowed: bool, i: int)
    requires 0 <= i < |users| && Shown(users[i], actor, allowed)
    ensures Report(users[i]) in Visible(users, actor, allowed)
    decreases |users|
  {
    var init := users[..|users| - 1];
    if i < |users| - 1 {
      assert users[i] == init[i];
      VisibleComplete(init, actor, allowed, i);
    }
  }

  /** `rep` is the report of a row that carries `actor`'s id. */
  predicate FromOwnRow(users: seq<User>, actor: UserDTO, rep: GradeReport) {
    exists i :: 0 <= i < |users| && users[i].id == actor.id && rep == Report(users[i])
  }

  /** An actor the policy engine refuses sees only reports of rows carrying
      its own id: never another user's grades. */
  lemma OthersHidden(users: seq<User>, actor: UserDTO)
    ensures forall k :: 0 <= k < |Visible(users, actor, false)| ==>
              FromOwnRow(users, actor, Visible(users, actor, false)[k])
  {
  }

  /** Facts every well-formed table satisfies: grades lie in [0, 6] and the
      super-user's id is not a row of it. */
  predicate WellFormed(users: seq<User>) {
    forall i :: 0 <= i < |users| ==>
      users[i].id != Admin && forall k :: 0 <= k < |users[i].grades| ==> IsGrade(users[i].grades[k])
  }

  /** A new account, whose id is a UUID, keeps the table well-formed. */
  lemma CreateKeepsWellFormed(users: seq<User>, id: string, email: string, name: string, h: Hash)
    requires WellFormed(users) && IsUuid(id)
    ensures WellFormed(users + [NewUser(id, email, name, h)])
  {
  }

  /** Replacing a hash keeps the table well-formed. */
  lemma ResetKeepsWellFormed(users: seq<User>, email: string, h: Hash)
    requires WellFormed(users)
    ensures WellFormed(WithHash(users, email, h))
  {
  }

  /** Appending a grade that passed the prompt's test keeps the table well-formed. */
  lemma GradeKeepsWellFormed(users: seq<User>, email: string, g: real)
    requires WellFormed(users) && IsGrade(g)
    ensures WellFormed(WithGrade(users, email, g))
  {
  }

  /** The super-user, refused the listing right, sees nothing: no row carries its id. */
  lemma AdminSeesNoGradesUnlessAllowed(users: seq<User>)
    requires WellFormed(users)
    ensures Visible(users, AdminIdentity, false) == []
  {
  }

  /** After a reset for `email`, the new password logs in as the first row with that email. */
  lemma ResetThenLogin(users: seq<User>, verify: Verifier, email: string, h: Hash, pw: string, i: int)
    requires email != Admin && IsFirstWithEmail(users, email, i) && verify(h, pw)
    ensures Authenticate(WithHash(users, email, h), verify, email, pw) == Some(Identity(users[i]))
  {
  }

  /** After a reset, the old password no longer logs in with that email, as
      long as the email is on one row only and the new hash does not accept it. */
  lemma ResetRevokesOldPassword(users: seq<User>, verify: Verifier, email: string, h: Hash, oldPw: string, i: int)
    requires email != Admin && IsFirstWithEmail(users, email, i) && !verify(h, oldPw)
    requires forall j :: 0 <= j < |users| && j != i ==> users[j].email != email
    ensures Authenticate(WithHash(users, email, h), verify, email, oldPw).None?
  {
  }

  /** With two rows sharing an email, a reset changes the earlier one only:
      the later account keeps its old password. */
  lemma ResetMissesLaterDuplicate(users: seq<User>, email: string, h: Hash, i: int, j: int)
    requires IsFirstWithEmail(users, email, i) && i < j < |users| && users[j].email == email
    ensures WithHash(users, email, h)[j] == users[j]
    ensures WithHash(users, email, h)[i].pwHash == h
  {
  }

  /** Grade entry only ever appends: each row's old grades are a prefix of its new ones. */
  lemma GradesAppendOnly(users: seq<User>, email: string, g: real)
    ensures forall j :: 0 <= j < |users| ==> users[j].grades <= WithGrade(users, email, g)[j].grades
  {
  }
}
