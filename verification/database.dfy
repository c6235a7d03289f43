/** The tables the handlers read and write, as immutable values. The User and
    Room models are not part of this model: their columns are the ones the
    routes and the socket handler use. Each table is a sequence of rows. Where
    SQL leaves the order of a query's rows open (no ORDER BY, or ties in the
    ordering column), the model fixes it to the order of this sequence. */
module Database {
  import opened Common
  import opened Seqs
  import opened MessageModel

  type Time = nat

  datatype User = User(
    id: int,
    email: string,
    username: string,
    displayName: string,
    name: Option<string>,
    password: Option<string>,      // a password hash; None for accounts created through Firebase
    provider: string,
    publicKey: Option<string>,
    keyVersion: int,
    profilePicture: Option<string>,
    createdAt: Time,
    lastSeen: Option<Time>,
    isOnline: bool)

  datatype Room = Room(id: string, name: string, createdBy: int, createdAt: Time, roomType: string)

  /** The database, plus the room manager's membership pairs `(user, room)`
      and the next values of the two auto-increment id columns. */
  datatype Db = Db(
    users: seq<User>,
    rooms: seq<Room>,
    messages: seq<Message>,
    members: set<(int, string)>,
    nextUserId: int,
    nextMessageId: int)

  /** What the schema guarantees: primary keys are unique and below the
      auto-increment counters, and every inserted message has a timestamp. */
  predicate WellFormed(db: Db) {
    && (forall i, j :: 0 <= i < j < |db.users| ==> db.users[i].id != db.users[j].id)
    && (forall i :: 0 <= i < |db.users| ==> db.users[i].id < db.nextUserId)
    && (forall i, j :: 0 <= i < j < |db.rooms| ==> db.rooms[i].id != db.rooms[j].id)
    && (forall i, j :: 0 <= i < j < |db.messages| ==> db.messages[i].id != db.messages[j].id)
    && (forall i :: 0 <= i < |db.messages| ==> db.messages[i].id < db.nextMessageId)
    && (forall i :: 0 <= i < |db.messages| ==> db.messages[i].timestamp.Some?)
  }

  /** `User.query.get(id)`: the position of the user with that primary key. */
  function UserIndex(db: Db, id: int): (r: Option<nat>)
    ensures r.Some? ==> r.value < |db.users| && db.users[r.value].id == id
    ensures r.None? ==> forall u :: u in db.users ==> u.id != id
  {
    FirstIndex(db.users, (u: User) => u.id == id)
  }

  /** `Room.query.filter_by(id=id).first()`. */
  function RoomIndex(db: Db, id: string): (r: Option<nat>)
    ensures r.Some? ==> r.value < |db.rooms| && db.rooms[r.value].id == id
    ensures r.None? ==> forall room :: room in db.rooms ==> room.id != id
  {
    FirstIndex(db.rooms, (room: Room) => room.id == id)
  }

  /** Inserting a user under the next auto-increment id keeps the table well
      formed. */
  lemma AddUserKeepsWellFormed(db: Db, u: User)
    requires WellFormed(db)
    requires u.id == db.nextUserId
    ensures WellFormed(db.(users := db.users + [u], nextUserId := db.nextUserId + 1))
  {
    var users := db.users + [u];
    assert forall i :: 0 <= i < |db.users| ==> users[i] == db.users[i];
  }
}
