/** The values stored in and returned by the user-record table of `db.rs`:
    the record itself, the `{id, email}` identity handed out after login,
    the fixed-width password hash, the authorization actions, and the
    reserved super-user constants. */
module DbTypes {

  datatype Option<+T> = None | Some(value: T)

  newtype byte = x: int | 0 <= x < 256

  /** Width of the stored password hash field (`[u8; 128]`). */
  const HashLen: nat := 128

  /** A padded hash blob: encoded argon2 hash, right-padded with zero bytes. */
  type Hash = h: seq<byte> | |h| == HashLen witness seq(HashLen, _ => 0)

  /** One row of the table. Grades are `f32` in the program; they are reals here. */
  datatype User = User(id: string, email: string, name: string, pwHash: Hash, grades: seq<real>)

  /** What a successful login hands out: the id and email, never the hash or the grades. */
  datatype UserDTO = UserDTO(id: string, email: string)

  /** The actions the access-control engine is asked about. */
  datatype Action = TeacherAccount | StudentAccount | EnterGrade | ShowGrades

  /** `verify(hash, pw)`: the password checker, an outside collaborator. */
  type Verifier = (Hash, string) -> bool

  /** `access_control::auth(user, action)`: the policy engine, an outside collaborator. */
  type Authorizer = (UserDTO, Action) -> bool

  /** The reserved super-user name, used both as its id and as its login identifier. */
  const Admin: string := "admin"

  /** The identity handed out to the super-user. */
  const AdminIdentity: UserDTO := UserDTO(Admin, Admin)

  /** The super-user's hash, a compile-time constant that never enters the table. */
  const AdminHash: Hash := AdminHashBytes

  const AdminHashBytes: seq<byte> := [
    36, 97, 114, 103, 111, 110, 50, 105, 100, 36, 118, 61, 49, 57, 36, 109, 61, 54, 53, 53, 51, 54,
    44, 116, 61, 50, 44, 112, 61, 49, 36, 56, 55, 81, 104, 72, 69, 100, 71, 51, 113, 120, 67, 118,
    82, 105, 56, 65, 115, 110, 85, 43, 65, 36, 78, 118, 68, 68, 53, 83, 89, 79, 109, 78, 118, 68,
    66, 74, 71, 88, 70, 109, 73, 87, 114, 98, 83, 99, 118, 69, 56, 115, 110, 75, 116, 106, 104,
    119, 72, 48, 56, 54, 111, 112, 99, 112, 111, 0, 0, 0, 0, 0, 0, 0, 0, 0, 0, 0, 0, 0, 0, 0, 0, 0,
    0, 0, 0, 0, 0, 0, 0, 0, 0, 0, 0, 0, 0, 0
  ]

  /** Bounds of the one-time reset code: `gen_range(100000..999999)` and the
      prompt's `inside(100000..999999)` are both half-open. */
  const CodeLow: int := 100000
  const CodeHigh: int := 999999

  predicate InCodeRange(c: int) {
    CodeLow <= c < CodeHigh
  }

  /** The test the grade prompt applies before it hands a value back. */
  predicate IsGrade(g: real) {
    0.0 <= g <= 6.0
  }

  predicate IsLowerHex(c: char) {
    '0' <= c <= '9' || 'a' <= c <= 'f'
  }

  /** The hyphenated text form of a UUID, as `Uuid::new_v4().to_string()` prints it:
      36 characters, hyphens at positions 8, 13, 18 and 23, lower-case hex elsewhere. */
  predicate IsUuid(s: string) {
    && |s| == 36
    && forall k :: 0 <= k < 36 ==>
         if k == 8 || k == 13 || k == 18 || k == 23 then s[k] == '-' else IsLowerHex(s[k])
  }
}
