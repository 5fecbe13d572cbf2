/** The process-wide user table of `db.rs` and the five operations that read
    or change it in place. Everything the program asks the user or an outside
    service for arrives as a parameter: the verifier and the policy engine as
    functions, the prompted email, name and answers, the fresh id, the random
    code and the freshly computed hash as values. */
module Db {
  import opened DbTypes
  import opened Table

  datatype CreateOutcome = CreateDenied | Created

  datatype ResetOutcome =
    | AdminRefused   // the super-user's password cannot be reset this way
    | NoCode         // no acceptable code was ever typed: the prompt is still waiting
    | WrongCode      // the code typed differs from the one sent
    | Installed      // the hash of the first row with the actor's email was replaced
    | NoRecord       // right code, but no row has the actor's email; a success is logged

  datatype GradeOutcome =
    | GradeDenied    // the policy engine refused `EnterGrade`
    | NoGrade        // no acceptable grade was ever typed: the prompt is still waiting
    | Recorded       // the grade was appended to the first row with that email
    | NoStudent      // no row has that email

  class Database {
    /** The rows of the table, in insertion order. */
    var users: seq<User>
    /** The table as last written to the database file; `None` while the file
        holds no readable table. */
    ghost var disk: Option<seq<User>>
    /** Ids appended to the policy file as teacher grouping facts. */
    ghost var teacherGrants: seq<string>

    /** The table is loaded once from the database file; a missing or
        unreadable file (`loaded == None`) yields an empty table. */
    constructor (loaded: Option<seq<User>>)
      ensures users == (if loaded.Some? then loaded.value else [])
      ensures disk == loaded && teacherGrants == []
    {
      users := if loaded.Some? then loaded.value else [];
      disk := loaded;
      teacherGrants := [];
    }

    /** `login`: the super-user against the constant hash, everybody else
        against the first row whose email and password both fit. */
    method Login(verify: Verifier, email: string, pw: string) returns (r: Option<UserDTO>)
      ensures r == Authenticate(users, verify, email, pw)
    {
      if email == Admin {
        if verify(AdminHash, pw) {
          return Some(AdminIdentity);
        }
      } else {
        var i := 0;
        while i < |users|
          invariant 0 <= i <= |users|
          invariant forall j :: 0 <= j < i ==> !Credentials(verify, email, pw)(users[j])
        {
          var user := users[i];
          if user.email == email && verify(user.pwHash, pw) {
            FirstIndexAt(users, Credentials(verify, email, pw), i);
            return Some(Identity(user));
          }
          i := i + 1;
        }
      }
      return None;
    }

    /** `create_account`: after the policy engine allows the requested kind of
        account, append a row with no grades (no check that the email is new),
        grant a new teacher its role, and write the table out. */
    method CreateAccount(auth: Authorizer, actor: UserDTO, isTeacher: bool,
                         email: string, name: string, pwHash: Hash, id: string)
      returns (outcome: CreateOutcome)
      modifies this
      ensures outcome == CreateDenied <==> !auth(actor, if isTeacher then TeacherAccount else StudentAccount)
      ensures outcome == CreateDenied ==>
                users == old(users) && disk == old(disk) && teacherGrants == old(teacherGrants)
      ensures outcome == Created ==>
                && users == old(users) + [NewUser(id, email, name, pwHash)]
                && teacherGrants == old(teacherGrants) + (if isTeacher then [id] else [])
                && disk == Some(users)
    {
      if isTeacher {
        if !auth(actor, TeacherAccount) {
          return CreateDenied;
        }
      } else {
        if !auth(actor, StudentAccount) {
          return CreateDenied;
        }
      }
      users := users + [NewUser(id, email, name, pwHash)];
      if isTeacher {
        teacherGrants := teacherGrants + [id];
      }
      disk := Some(users);
      return Created;
    }

    /** The scan of `reset_password`: replace the hash of the first row whose
        email is `email`; report whether there was one. */
    method ReplaceFirstHash(email: string, h: Hash) returns (found: bool)
      modifies this`users
      ensures found == HasRecord(old(users), email)
      ensures users == WithHash(old(users), email, h)
    {
      var i := 0;
      while i < |users|
        invariant 0 <= i <= |users|
        invariant users == old(users)
        invariant forall j :: 0 <= j < i ==> !HasEmail(email)(users[j])
      {
        if users[i].email == email {
          FirstIndexAt(users, HasEmail(email), i);
          users := users[i := users[i].(pwHash := h)];
          return true;
        }
        i := i + 1;
      }
      return false;
    }

    /** `reset_password`, as written: the super-user is refused; otherwise a
        code is drawn and mailed (not modelled), and the first code typed in
        range is compared with it. On a match the hash is replaced and the
        method returns without writing the table out; the table is written out
        only on a wrong code and when no row has the actor's email. */
    method ResetPassword(actor: UserDTO, code: int, answers: seq<int>, newHash: Hash)
      returns (outcome: ResetOutcome)
      requires InCodeRange(code)
      modifies this
      ensures teacherGrants == old(teacherGrants)
      ensures actor.id == Admin ==> outcome == AdminRefused
      ensures outcome == AdminRefused || outcome == NoCode ==> users == old(users) && disk == old(disk)
      ensures actor.id != Admin ==> (outcome == NoCode <==> Prompted(answers, InCodeRange).None?)
      ensures actor.id != Admin && Prompted(answers, InCodeRange).Some? ==>
                var entered := Prompted(answers, InCodeRange).value;
                && InCodeRange(entered)
                && (entered != code ==> outcome == WrongCode && users == old(users) && disk == Some(users))
                && (entered == code ==> users == WithHash(old(users), actor.email, newHash))
                && (entered == code && HasRecord(old(users), actor.email) ==>
                      outcome == Installed && disk == old(disk))
                && (entered == code && !HasRecord(old(users), actor.email) ==>
                      outcome == NoRecord && disk == Some(users))
    {
      if actor.id == Admin {
        return AdminRefused;
      }
      var entered := Prompted(answers, InCodeRange);
      if entered.None? {
        return NoCode;
      }
      if code == entered.value {
        var found := ReplaceFirstHash(actor.email, newHash);
        if found {
          return Installed;
        }
        outcome := NoRecord;
      } else {
        outcome := WrongCode;
      }
      disk := Some(users);
    }

    /** `reset_password` with the table written out on every path that reaches
        the table, the successful one included. */
    method ResetPasswordDurable(actor: UserDTO, code: int, answers: seq<int>, newHash: Hash)
      returns (outcome: ResetOutcome)
      requires InCodeRange(code)
      modifies this
      ensures teacherGrants == old(teacherGrants)
      ensures actor.id == Admin ==> outcome == AdminRefused
      ensures outcome == AdminRefused || outcome == NoCode ==> users == old(users) && disk == old(disk)
      ensures actor.id != Admin ==> outcome != AdminRefused
      ensures actor.id != Admin ==> (outcome == NoCode <==> Prompted(answers, InCodeRange).None?)
      ensures actor.id != Admin && Prompted(answers, InCodeRange).Some? ==>
                var entered := Prompted(answers, InCodeRange).value;
                && InCodeRange(entered)
                && (entered != code ==> outcome == WrongCode && users == old(users))
                && (entered == code ==> users == WithHash(old(users), actor.email, newHash))
                && (entered == code && HasRecord(old(users), actor.email) ==> outcome == Installed)
                && (entered == code && !HasRecord(old(users), actor.email) ==> outcome == NoRecord)
      ensures outcome != AdminRefused && outcome != NoCode ==> disk == Some(users)
    {
      if actor.id == Admin {
        return AdminRefused;
      }
      var entered := Prompted(answers, InCodeRange);
      if entered.None? {
        return NoCode;
      }
      if code == entered.value {
        var found := ReplaceFirstHash(actor.email, newHash);
        outcome := if found then Installed else NoRecord;
      } else {
        outcome := WrongCode;
      }
      disk := Some(users);
    }

    /** The scan of `enter_grade`: append `g` to the grades of the first row
        whose email is `email`; report whether there was one. */
    method AppendFirstGrade(email: string, g: real) returns (found: bool)
      modifies this`users
      ensures found == HasRecord(old(users), email)
      ensures users == WithGrade(old(users), email, g)
    {
      var i := 0;
      while i < |users|
        invariant 0 <= i <= |users|
        invariant users == old(users)
        invariant forall j :: 0 <= j < i ==> !HasEmail(email)(users[j])
      {
        if users[i].email == email {
          FirstIndexAt(users, HasEmail(email), i);
          users := users[i := users[i].(grades := users[i].grades + [g])];
          return true;
        }
        i := i + 1;
      }
      return false;
    }

    /** `enter_grade`, as written: after the policy engine allows
        `EnterGrade`, the first grade typed within [0, 6] is appended for the
        first row with `email`, and the method returns without writing the
        table out; the table is written out only when no row has `email`. */
    method EnterGrade(auth: Authorizer, actor: UserDTO, email: string, answers: seq<real>)
      returns (outcome: GradeOutcome)
      modifies this
      ensures teacherGrants == old(teacherGrants)
      ensures outcome == GradeDenied <==> !auth(actor, Action.EnterGrade)
      ensures outcome == GradeDenied || outcome == NoGrade ==> users == old(users) && disk == old(disk)
      ensures auth(actor, Action.EnterGrade) ==> (outcome == NoGrade <==> Prompted(answers, IsGrade).None?)
      ensures auth(actor, Action.EnterGrade) && Prompted(answers, IsGrade).Some? ==>
                var g := Prompted(answers, IsGrade).value;
                && IsGrade(g)
                && users == WithGrade(old(users), email, g)
                && (HasRecord(old(users), email) ==> outcome == Recorded && disk == old(disk))
                && (!HasRecord(old(users), email) ==> outcome == NoStudent && disk == Some(users))
    {
      if !auth(actor, Action.EnterGrade) {
        return GradeDenied;
      }
      var grade := Prompted(answers, IsGrade);
      if grade.None? {
        return NoGrade;
      }
      var found := AppendFirstGrade(email, grade.value);
      if found {
        return Recorded;
      }
      disk := Some(users);
      return NoStudent;
    }

    /** `enter_grade` with the table written out whenever a grade reached it. */
    method EnterGradeDurable(auth: Authorizer, actor: UserDTO, email: string, answers: seq<real>)
      returns (outcome: GradeOutcome)
      modifies this
      ensures teacherGrants == old(teacherGrants)
      ensures outcome == GradeDenied <==> !auth(actor, Action.EnterGrade)
      ensures outcome == GradeDenied || outcome == NoGrade ==> users == old(users) && disk == old(disk)
      ensures auth(actor, Action.EnterGrade) ==> (outcome == NoGrade <==> Prompted(answers, IsGrade).None?)
      ensures auth(actor, Action.EnterGrade) && Prompted(answers, IsGrade).Some? ==>
                && users == WithGrade(old(users), email, Prompted(answers, IsGrade).value)
                && (outcome == Recorded <==> HasRecord(old(users), email))
                && disk == Some(users)
    {
      if !auth(actor, Action.EnterGrade) {
        return GradeDenied;
      }
      var grade := Prompted(answers, IsGrade);
      if grade.None? {
        return NoGrade;
      }
      var found := AppendFirstGrade(email, grade.value);
      outcome := if found then Recorded else NoStudent;
      disk := Some(users);
    }

    /** `show_grades`: every row with grades when the policy engine allows
        `ShowGrades`, otherwise only rows carrying the actor's own id; the
        table is only read. */
    method ShowGrades(auth: Authorizer, actor: UserDTO) returns (reports: seq<GradeReport>)
      ensures reports == Visible(users, actor, auth(actor, Action.ShowGrades))
    {
      var isTeacher := true;
      if !auth(actor, Action.ShowGrades) {
        isTeacher := false;
      }
      reports := [];
      var i := 0;
      while i < |users|
        invariant 0 <= i <= |users|
        invariant reports == Visible(users[..i], actor, isTeacher)
      {
        var user := users[i];
        assert users[..i + 1][..i] == users[..i];
        if |user.grades| > 0 && (isTeacher || actor.id == user.id) {
          reports := reports + [Report(user)];
        }
        i := i + 1;
      }
      assert users[..i] == users;
    }
  }

  /** With the code as written, a successful reset leaves the database file
      behind the table: one row whose hash is replaced, nothing written out. */
  method UnsavedResetScenario() returns (db: Database)
    ensures db.disk == Some([User("u", "s@x.com", "S", seq(HashLen, _ => 0), [])])
    ensures db.users == [User("u", "s@x.com", "S", seq(HashLen, _ => 1), [])]
    ensures db.disk != Some(db.users)
  {
    var row := User("u", "s@x.com", "S", seq(HashLen, _ => 0), []);
    db := new Database(Some([row]));
    var outcome := db.ResetPassword(UserDTO("u", "s@x.com"), 123456, [123456], seq(HashLen, _ => 1));
    assert HasRecord([row], "s@x.com");
    assert db.users[0].pwHash[0] != row.pwHash[0];
  }

  /** With the code as written, a recorded grade is not written out. */
  method UnsavedGradeScenario() returns (db: Database)
    ensures db.disk == Some([User("u", "s@x.com", "S", seq(HashLen, _ => 0), [])])
    ensures db.users == [User("u", "s@x.com", "S", seq(HashLen, _ => 0), [4.5])]
    ensures db.disk != Some(db.users)
  {
    var row := User("u", "s@x.com", "S", seq(HashLen, _ => 0), []);
    db := new Database(Some([row]));
    var outcome := db.EnterGrade((_, _) => true, UserDTO("t", "t@x.com"), "s@x.com", [7.0, 4.5]);
    assert HasRecord([row], "s@x.com");
    assert !IsGrade(7.0) && IsGrade(4.5);
    assert db.users[0].grades == [4.5];
  }
}
