/** User creation and the two profile queries (service/impl/UserServiceImpl.java). The
    password encoder is not part of this model: the caller passes its output. */
module UserService {
  import Int32
  import opened Wrappers
  import opened Calendar
  import opened Entities
  import opened Failures
  import opened DailyCheckinRepository
  import opened Ledger

  datatype UserResponse = UserResponse(id: int, name: string, avatar: string, totalPoints: int)

  datatype UserProfileResponse = UserProfileResponse(name: string, avatar: string, totalPoints: int, totalCheckinDaysInMonth: int)

  /** `userRepository.findByUsername(username).isPresent()`. */
  predicate UsernameTaken(users: map<int, User>, username: string) {
    exists id :: id in users && users[id].username == username
  }

  /** `createUser(request)` on the store `st`, with the encoded password given. */
  function CreateUserTx(st: LedgerState, username: string, encodedPassword: string, name: string, avatar: string): (out: (Result<UserResponse, Failure>, LedgerState))
    ensures out.0.Err? ==> out.1 == st
  {
    if UsernameTaken(st.users, username) then (Err(UsernameExists), st)
    else
      var id := st.nextUserId;
      var user := User(username, encodedPassword, name, avatar, 0);
      (Ok(UserResponse(id, user.name, user.avatar, user.totalPoints)),
       st.(users := st.users[id := user], nextUserId := id + 1))
  }

  /** `createUser`, against the mutable store. */
  method CreateUser(db: Database, username: string, encodedPassword: string, name: string, avatar: string)
    returns (r: Result<UserResponse, Failure>)
    modifies db
    ensures (r, db.State()) == CreateUserTx(old(db.State()), username, encodedPassword, name, avatar)
  {
    if exists id :: id in db.users && db.users[id].username == username {
      return Err(UsernameExists);
    }
    var user := User(username, encodedPassword, name, avatar, 0);
    var id := db.InsertUser(user);
    r := Ok(UserResponse(id, user.name, user.avatar, user.totalPoints));
  }

  /** A taken username is refused and adds no user; a free one adds exactly one user, under
      a new id, with the request's fields and a balance of 0, and the response echoes them. */
  lemma CreateUserOutcome(st: LedgerState, username: string, encodedPassword: string, name: string, avatar: string)
    requires Valid(st)
    ensures
      var out := CreateUserTx(st, username, encodedPassword, name, avatar);
      && (UsernameTaken(st.users, username) <==> out.0 == Err(UsernameExists))
      && (out.0.Ok? ==>
            var id := out.0.value.id;
            && id !in st.users
            && out.1.users == st.users[id := User(username, encodedPassword, name, avatar, 0)]
            && out.0.value == UserResponse(id, name, avatar, 0)
            && out.1.checkins == st.checkins && out.1.history == st.history)
  {
  }

  /** Creating a user keeps every invariant: the new user's balance of 0 is the sum of an
      empty history, and usernames stay unique. */
  lemma CreateUserPreservesValid(st: LedgerState, username: string, encodedPassword: string, name: string, avatar: string)
    requires Valid(st)
    ensures Valid(CreateUserTx(st, username, encodedPassword, name, avatar).1)
  {
    var out := CreateUserTx(st, username, encodedPassword, name, avatar);
    if out.0.Ok? {
      var id := st.nextUserId;
      HistorySumAbsent(st.history, id);
      Int32.WrapInRange(0);
      assert forall a :: a in st.users ==> st.users[a].username != username;
      assert forall a :: a in st.users ==> out.1.users[a] == st.users[a];
    }
  }

  /** A store that was only ever built by creating users is valid. */
  lemma {:induction false} CreatedUsersValid(requests: seq<(string, string, string, string)>)
    ensures Valid(CreateAll(Empty(), requests))
  {
    if |requests| == 0 {
      EmptyValid();
    } else {
      var init := requests[..|requests| - 1];
      var last := requests[|requests| - 1];
      CreatedUsersValid(init);
      CreateUserPreservesValid(CreateAll(Empty(), init), last.0, last.1, last.2, last.3);
    }
  }

  /** The store after a run of user creations, in order. */
  function CreateAll(st: LedgerState, requests: seq<(string, string, string, string)>): LedgerState {
    if |requests| == 0 then st
    else
      var last := requests[|requests| - 1];
      CreateUserTx(CreateAll(st, requests[..|requests| - 1]), last.0, last.1, last.2, last.3).1
  }

  /** `getUserProfile(userId)`. */
  function GetUserProfile(st: LedgerState, userId: int, today: Date): (r: Result<UserProfileResponse, Failure>)
    ensures r.Err? <==> userId !in st.users
    ensures r.Err? ==> r.error == UserIdNotFound(userId)
  {
    if userId !in st.users then Err(UserIdNotFound(userId))
    else
      var user := st.users[userId];
      Ok(UserProfileResponse(user.name, user.avatar, user.totalPoints,
                             CountByUserIdAndMonth(st.checkins, userId, today.year, today.month)))
  }

  /** The profile reports the balance, which is the user's history sum, and as many
      check-in days as the month's list of check-ins holds. */
  lemma ProfileReportsLedger(st: LedgerState, userId: int, today: Date)
    requires Valid(st) && userId in st.users
    ensures
      var p := GetUserProfile(st, userId, today).value;
      && p.totalPoints == Int32.Wrap(HistorySum(st.history, userId))
      && p.totalCheckinDaysInMonth == |FindByUserIdAndMonth(st.checkins, userId, today.year, today.month)|
      && p.name == st.users[userId].name && p.avatar == st.users[userId].avatar
  {
    FindByUserIdAndMonthSpec(st.checkins, userId, today.year, today.month);
  }

  /** `getUserById(userId)`. */
  function GetUserById(st: LedgerState, userId: int): (r: Result<UserResponse, Failure>)
    ensures r.Err? <==> userId !in st.users
    ensures r.Err? ==> r.error == UserIdNotFound(userId)
    ensures r.Ok? ==> r.value.id == userId && r.value.totalPoints == st.users[userId].totalPoints
  {
    if userId !in st.users then Err(UserIdNotFound(userId))
    else
      var user := st.users[userId];
      Ok(UserResponse(userId, user.name, user.avatar, user.totalPoints))
  }

  /** Right after creation, looking the user up by the new id gives back the creation
      response. */
  lemma CreatedUserFound(st: LedgerState, username: string, encodedPassword: string, name: string, avatar: string)
    requires CreateUserTx(st, username, encodedPassword, name, avatar).0.Ok?
    ensures
      var out := CreateUserTx(st, username, encodedPassword, name, avatar);
      GetUserById(out.1, out.0.value.id) == Ok(out.0.value)
  {
  }
}
