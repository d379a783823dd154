/**
 * Group and user lookups over the userdb query: the wire records, their
 * mapping to the public Group and User shapes, the caller predicates
 * (exact name, or exact decimal id), and queryGroupDb / queryUserDb,
 * which run the query with an unmarshal callback that keeps the last
 * matching record.
 */
module Lookup {
  import opened Wrappers
  import opened Framing
  import opened Decimal
  import opened Userdb

  /** The record of a GetGroupRecord reply. */
  datatype GroupRecord = GroupRecord(groupName: string, gid: int64)

  /** The record of a GetUserRecord reply. */
  datatype UserRecord = UserRecord(userName: string, realName: string, uid: int64, gid: int64, homeDirectory: string)

  /** A group as the package reports it: ids are decimal strings. */
  datatype Group = Group(name: string, gid: string)

  /** A user as the package reports it: ids are decimal strings. */
  datatype User = User(uid: string, gid: string, username: string, name: string, homeDir: string)

  const GetGroupRecord := "io.systemd.UserDatabase.GetGroupRecord"
  const GetUserRecord := "io.systemd.UserDatabase.GetUserRecord"

  /** The group reported for a matching record. */
  function ToGroup(r: GroupRecord): (g: Group)
    ensures g.name == r.groupName
    ensures IsCanonicalInt(g.gid) && IntValue(g.gid) == r.gid as int
  {
    Group(r.groupName, FormatInt(r.gid))
  }

  /** The user reported for a matching record. */
  function ToUser(r: UserRecord): (u: User)
    ensures u.username == r.userName && u.name == r.realName && u.homeDir == r.homeDirectory
    ensures IsCanonicalInt(u.uid) && IntValue(u.uid) == r.uid as int
    ensures IsCanonicalInt(u.gid) && IntValue(u.gid) == r.gid as int
  {
    User(FormatInt(r.uid), FormatInt(r.gid), r.userName, r.realName, r.homeDirectory)
  }

  /** The predicate of lookupGroup. */
  function GroupNamed(groupname: string): GroupRecord -> bool {
    (g: GroupRecord) => g.groupName == groupname
  }

  /** The predicate of lookupGroupId: the gid rendered in decimal is the caller's string. */
  function GroupIdIs(id: string): GroupRecord -> bool {
    (g: GroupRecord) => FormatInt(g.gid) == id
  }

  /** The predicate of lookupUser. */
  function UserNamed(username: string): UserRecord -> bool {
    (u: UserRecord) => u.userName == username
  }

  /** The predicate of lookupUserId: the uid rendered in decimal is the caller's string. */
  function UserIdIs(uid: string): UserRecord -> bool {
    (u: UserRecord) => FormatInt(u.uid) == uid
  }

  /**
   * What queryGroupDb and queryUserDb return for a query outcome: the
   * error and no result, or the mapped selection (nil when nothing
   * matched) and no error.
   */
  function Answer<R, T>(o: Result<Option<R>, Error>, build: R -> T): (a: (Option<T>, Option<Error>))
    ensures o.Failure? ==> a.0.None? && a.1 == Some(o.error)
    ensures o.Success? ==> a.1.None? && (a.0.Some? <==> o.value.Some?)
  {
    match o
    case Failure(e) => (None, Some(e))
    case Success(None) => (None, None)
    case Success(Some(r)) => (Some(build(r)), None)
  }

  /** The captured result of a query turned into the pair the query function returns. */
  lemma CapturedAnswer<R, T>(sock: Socket, decode: Frame -> Option<Envelope<R>>, pred: R -> bool, build: R -> T)
    requires sock.dialErr.None? && sock.writeErr.None?
    requires !(EndReached(sock.reply, decode) && sock.readErr.Some?)
    ensures Answer(QueryOutcome(sock, decode, pred), build)
      == (Captured(Accepted(Frames(sock.reply), decode), pred, build, None), None)
  {
  }

  /**
   * queryGroupDb: runs the query for group records with a callback that
   * maps every record satisfying pred to a Group, the last one winning;
   * sent is what was written to the socket.
   */
  method QueryGroupDb(sock: Socket, encode: Request -> seq<byte>, decode: Frame -> Option<Envelope<GroupRecord>>,
                      pred: GroupRecord -> bool)
    returns (group: Option<Group>, err: Option<Error>, sent: seq<byte>)
    ensures sent == if sock.dialErr.Some? then [] else Delimited(encode(Request(GetGroupRecord, Parameters(Service), true)))
    ensures (group, err) == Answer(QueryOutcome(sock, decode, pred), ToGroup)
  {
    var sel := new Selector(decode, pred, ToGroup);
    ghost var fed;
    sent, err, fed := QueryUserdbd(GetGroupRecord, sock, encode, sel);
    if err.Some? {
      return None, err, sent;
    }
    CapturedAnswer(sock, decode, pred, ToGroup);
    group := sel.captured;
  }

  /**
   * queryUserDb: runs the query for user records with a callback that
   * maps every record satisfying pred to a User, the last one winning;
   * sent is what was written to the socket.
   */
  method QueryUserDb(sock: Socket, encode: Request -> seq<byte>, decode: Frame -> Option<Envelope<UserRecord>>,
                     pred: UserRecord -> bool)
    returns (user: Option<User>, err: Option<Error>, sent: seq<byte>)
    ensures sent == if sock.dialErr.Some? then [] else Delimited(encode(Request(GetUserRecord, Parameters(Service), true)))
    ensures (user, err) == Answer(QueryOutcome(sock, decode, pred), ToUser)
  {
    var sel := new Selector(decode, pred, ToUser);
    ghost var fed;
    sent, err, fed := QueryUserdbd(GetUserRecord, sock, encode, sel);
    if err.Some? {
      return None, err, sent;
    }
    CapturedAnswer(sock, decode, pred, ToUser);
    user := sel.captured;
  }

  /** lookupGroup: the last processed group record named groupname. */
  method LookupGroup(sock: Socket, encode: Request -> seq<byte>, decode: Frame -> Option<Envelope<GroupRecord>>,
                     groupname: string)
    returns (group: Option<Group>, err: Option<Error>)
    ensures (group, err) == Answer(QueryOutcome(sock, decode, GroupNamed(groupname)), ToGroup)
    ensures group.Some? ==> err.None? && group.value.name == groupname
  {
    var sent;
    group, err, sent := QueryGroupDb(sock, encode, decode, GroupNamed(groupname));
  }

  /** lookupGroupId: the last processed group record whose gid renders as id. */
  method LookupGroupId(sock: Socket, encode: Request -> seq<byte>, decode: Frame -> Option<Envelope<GroupRecord>>,
                       id: string)
    returns (group: Option<Group>, err: Option<Error>)
    ensures (group, err) == Answer(QueryOutcome(sock, decode, GroupIdIs(id)), ToGroup)
    ensures group.Some? ==> err.None? && group.value.gid == id
  {
    var sent;
    group, err, sent := QueryGroupDb(sock, encode, decode, GroupIdIs(id));
  }

  /** lookupUser: the last processed user record named username. */
  method LookupUser(sock: Socket, encode: Request -> seq<byte>, decode: Frame -> Option<Envelope<UserRecord>>,
                    username: string)
    returns (user: Option<User>, err: Option<Error>)
    ensures (user, err) == Answer(QueryOutcome(sock, decode, UserNamed(username)), ToUser)
    ensures user.Some? ==> err.None? && user.value.username == username
  {
    var sent;
    user, err, sent := QueryUserDb(sock, encode, decode, UserNamed(username));
  }

  /** lookupUserId: the last processed user record whose uid renders as uid. */
  method LookupUserId(sock: Socket, encode: Request -> seq<byte>, decode: Frame -> Option<Envelope<UserRecord>>,
                      uid: string)
    returns (user: Option<User>, err: Option<Error>)
    ensures (user, err) == Answer(QueryOutcome(sock, decode, UserIdIs(uid)), ToUser)
    ensures user.Some? ==> err.None? && user.value.uid == uid
  {
    var sent;
    user, err, sent := QueryUserDb(sock, encode, decode, UserIdIs(uid));
  }

  /**
   * A gid matches the caller's string exactly when that string is the
   * canonical decimal spelling of the gid: no sign but a leading '-' on
   * a negative id, and no leading zero.
   */
  lemma GroupIdExact(id: string, g: GroupRecord)
    ensures GroupIdIs(id)(g) <==> IsCanonicalInt(id) && IntValue(id) == g.gid as int
  {
    FormatIntExact(g.gid, id);
  }

  /** The same for a uid. */
  lemma UserIdExact(uid: string, u: UserRecord)
    ensures UserIdIs(uid)(u) <==> IsCanonicalInt(uid) && IntValue(uid) == u.uid as int
  {
    FormatIntExact(u.uid, uid);
  }

  /** Other spellings of the same number never select the record: "007", "07", "+7" and "-0" differ from "7" and "0". */
  lemma OtherSpellingsNeverMatch(name: string)
    ensures GroupIdIs("7")(GroupRecord(name, 7))
    ensures !GroupIdIs("007")(GroupRecord(name, 7)) && !GroupIdIs("07")(GroupRecord(name, 7))
    ensures !GroupIdIs("+7")(GroupRecord(name, 7)) && !GroupIdIs("70")(GroupRecord(name, 7))
    ensures !GroupIdIs("-0")(GroupRecord(name, 0)) && GroupIdIs("0")(GroupRecord(name, 0))
  {
    assert FormatInt(7) == "7" by {
      assert DigitChar(7) == '7';
    }
    assert FormatInt(0) == "0" by {
      assert DigitChar(0) == '0';
    }
  }

  lemma FormatInt181()
    ensures FormatInt(181) == "181"
  {
    assert DigitChar(1) == '1' && DigitChar(8) == '8';
    assert FormatNat(1) == "1";
    assert FormatNat(18) == "18";
  }

  /**
   * The reply of the package's own test: one delimited frame carrying
   * group "stdlibcontrib" with gid 181 and no continuation. Looking the
   * group up by name finds it as Group("stdlibcontrib", "181"), by gid
   * "181" too, and any other name finds nothing; none of it waits for the
   * end of the stream, so how the stream ends does not matter.
   */
  lemma StdlibcontribScenario(sock: Socket, decode: Frame -> Option<Envelope<GroupRecord>>, payload: seq<byte>, other: string)
    requires sock.dialErr.None? && sock.writeErr.None? && sock.reply == Delimited(payload) && ZeroFree(payload)
    requires decode(payload) == Some(Envelope(GroupRecord("stdlibcontrib", 181), false))
    requires other != "stdlibcontrib"
    ensures Answer(QueryOutcome(sock, decode, GroupNamed("stdlibcontrib")), ToGroup) == (Some(Group("stdlibcontrib", "181")), None)
    ensures Answer(QueryOutcome(sock, decode, GroupIdIs("181")), ToGroup) == (Some(Group("stdlibcontrib", "181")), None)
    ensures Answer(QueryOutcome(sock, decode, GroupNamed(other)), ToGroup) == (None, None)
  {
    FormatInt181();
    SingleFrameReply(sock, decode, GroupNamed("stdlibcontrib"), payload);
    SingleFrameReply(sock, decode, GroupIdIs("181"), payload);
    SingleFrameReply(sock, decode, GroupNamed(other), payload);
  }
}
