/** The contact list of src/components/List/ChatList.jsx: building rows from
    the loaded chatrooms, the chat-list update reducer, the unread reset when a
    room is opened, the add-contact decision, the search result listing and the
    unread badge. Every operation is a pure function of its explicit inputs:
    the local user's id, the active room id and the current time are
    parameters, and network results arrive as arguments. */
module ChatList {
  import opened Options
  import opened Strings

  type RoomId = string
  type UserId = string
  /** Milliseconds since the epoch; parsing ISO date strings is not modelled. */
  type Timestamp = int

  /** The `time` column of a row: either the locale clock text of an instant
      (its formatting is not modelled) or a fixed label. */
  datatype TimeLabel = ClockOf(at: Timestamp) | Label(text: string)

  /** One row of the contact list. */
  datatype Contact = Contact(
    id: RoomId,
    name: string,
    preview: string,
    messageType: string,
    avatar: Option<string>,
    time: TimeLabel,
    unread: nat,
    otherUserId: Option<UserId>,
    updatedAt: Timestamp)

  // ================================================================ loading

  datatype Profile = Profile(id: UserId, firstName: Option<string>, lastName: Option<string>, avatar: Option<string>)
  datatype Member = Member(userId: UserId, user: Option<Profile>)
  datatype LastMessage = LastMessage(
    userId: Option<UserId>,
    content: Option<string>,
    msgType: Option<string>,
    createdAt: Option<Timestamp>,
    readers: Option<seq<UserId>>)
  datatype Chatroom = Chatroom(
    id: RoomId,
    members: Option<seq<Member>>,
    lastMessage: Option<LastMessage>,
    updatedAt: Timestamp)

  /** `readers?.includes(me)`: a missing reader list includes nobody. */
  predicate ReadBy(readers: Option<seq<UserId>>, me: UserId) {
    readers.Some? && me in readers.value
  }

  /** A message counts as unread for `me` when someone else sent it (an absent
      sender is someone else) and `me` is not among its readers. */
  predicate AwaitsReader(sender: Option<UserId>, readers: Option<seq<UserId>>, me: UserId) {
    sender != Some(me) && !ReadBy(readers, me)
  }

  /** `members.find(m => m.userId !== me)`: the first member who is not `me`. */
  function OtherMember(members: seq<Member>, me: UserId): (r: Option<Member>)
    ensures r.None? <==> forall k :: 0 <= k < |members| ==> members[k].userId == me
    ensures r.Some? ==> exists k :: 0 <= k < |members| && members[k] == r.value
                                    && r.value.userId != me
                                    && forall j :: 0 <= j < k ==> members[j].userId == me
  {
    if |members| == 0 then None
    else if members[0].userId != me then Some(members[0])
    else
      var r := OtherMember(members[1..], me);
      assert forall k :: 0 <= k < |members| - 1 ==> members[1..][k] == members[k + 1];
      r
  }

  /** The other participant's profile, when the room lists one. */
  function OtherUser(room: Chatroom, me: UserId): Option<Profile> {
    match room.members
    case None => None
    case Some(ms) =>
      match OtherMember(ms, me)
      case None => None
      case Some(m) => m.user
  }

  /** One row built from a loaded chatroom (ChatList.jsx lines 38-67). */
  function FormatRoom(room: Chatroom, me: UserId): (c: Contact)
    ensures c.id == room.id && c.updatedAt == room.updatedAt
    ensures c.unread <= 1
    ensures c.unread == 1 <==> room.lastMessage.Some?
                               && AwaitsReader(room.lastMessage.value.userId, room.lastMessage.value.readers, me)
    ensures room.lastMessage.None? ==> c.preview == "No messages yet" && c.messageType == "TEXT"
                                       && c.time == Label("New chat")
    ensures room.lastMessage.Some? ==>
              && c.preview == OrElse(room.lastMessage.value.content, "No messages yet")
              && c.messageType == OrElse(room.lastMessage.value.msgType, "TEXT")
    ensures room.lastMessage.Some? && room.lastMessage.value.createdAt.Some? ==>
              c.time == ClockOf(room.lastMessage.value.createdAt.value)
    ensures room.lastMessage.Some? && room.lastMessage.value.createdAt.None? ==> c.time == Label("New chat")
    ensures OtherUser(room, me).None? ==> c.name == "Unknown User" && c.otherUserId.None? && c.avatar.None?
    ensures OtherUser(room, me).Some? ==>
              var u := OtherUser(room, me).value;
              && c.name == Interpolate(u.firstName) + " " + Interpolate(u.lastName)
              && c.avatar == Nonempty(u.avatar)
              && c.otherUserId == Some(u.id)
  {
    var other := OtherUser(room, me);
    var unread :=
      if room.lastMessage.Some? && AwaitsReader(room.lastMessage.value.userId, room.lastMessage.value.readers, me)
      then 1 else 0;
    Contact(
      id := room.id,
      name := if other.Some? then Interpolate(other.value.firstName) + " " + Interpolate(other.value.lastName)
              else "Unknown User",
      preview := if room.lastMessage.Some? then OrElse(room.lastMessage.value.content, "No messages yet")
                 else "No messages yet",
      messageType := if room.lastMessage.Some? then OrElse(room.lastMessage.value.msgType, "TEXT") else "TEXT",
      avatar := if other.Some? then Nonempty(other.value.avatar) else None,
      time := if room.lastMessage.Some? && room.lastMessage.value.createdAt.Some?
              then ClockOf(room.lastMessage.value.createdAt.value) else Label("New chat"),
      unread := unread,
      otherUserId := if other.Some? then Some(other.value.id) else None,
      updatedAt := room.updatedAt)
  }

  /** Rows ordered most recently updated first. */
  predicate NewestFirst(rows: seq<Contact>) {
    forall i, j :: 0 <= i < j < |rows| ==> rows[i].updatedAt >= rows[j].updatedAt
  }

  /** Places `c` before the first row that is not newer than it. */
  function InsertByRecency(c: Contact, rows: seq<Contact>): (r: seq<Contact>)
    requires NewestFirst(rows)
    ensures NewestFirst(r)
    ensures multiset(r) == multiset(rows) + multiset{c}
    ensures |r| == |rows| + 1
  {
    if |rows| == 0 || rows[0].updatedAt <= c.updatedAt then
      [c] + rows
    else
      var t := InsertByRecency(c, rows[1..]);
      assert rows == [rows[0]] + rows[1..];
      NotNewerThanHead(c, rows, t);
      [rows[0]] + t
  }

  /** Everything inserted behind the head row is no newer than it. */
  lemma NotNewerThanHead(c: Contact, rows: seq<Contact>, t: seq<Contact>)
    requires NewestFirst(rows) && |rows| > 0 && c.updatedAt < rows[0].updatedAt
    requires NewestFirst(t) && multiset(t) == multiset(rows[1..]) + multiset{c}
    ensures NewestFirst([rows[0]] + t)
  {
    forall j | 0 <= j < |t| ensures t[j].updatedAt <= rows[0].updatedAt {
      assert t[j] in multiset(t);
      if t[j] != c {
        assert t[j] in multiset(rows[1..]);
        var k :| 0 <= k < |rows[1..]| && rows[1..][k] == t[j];
        assert rows[k + 1] == t[j];
      }
    }
    var r := [rows[0]] + t;
    forall i, j | 0 <= i < j < |r| ensures r[i].updatedAt >= r[j].updatedAt {
      assert r[j] == t[j - 1];
      if i > 0 { assert r[i] == t[i - 1]; }
    }
  }

  /** The stable sort `rows.sort((a, b) => b.updatedAt - a.updatedAt)`. */
  function SortByRecency(rows: seq<Contact>): (r: seq<Contact>)
    ensures NewestFirst(r)
    ensures multiset(r) == multiset(rows)
    ensures |r| == |rows|
  {
    if |rows| == 0 then []
    else
      assert rows == [rows[0]] + rows[1..];
      InsertByRecency(rows[0], SortByRecency(rows[1..]))
  }

  /** The rows of one `updatedAt` value, in list order. */
  function WithTime(rows: seq<Contact>, t: Timestamp): seq<Contact> {
    if |rows| == 0 then []
    else (if rows[0].updatedAt == t then [rows[0]] else []) + WithTime(rows[1..], t)
  }

  lemma WithTimeCons(x: Contact, rest: seq<Contact>, t: Timestamp)
    ensures WithTime([x] + rest, t) == (if x.updatedAt == t then [x] else []) + WithTime(rest, t)
  {
    assert ([x] + rest)[1..] == rest;
  }

  /** Inserting a row adds it to its own tie group, in front of the rows already there. */
  lemma {:induction false} InsertKeepsTies(c: Contact, rows: seq<Contact>, t: Timestamp)
    requires NewestFirst(rows)
    ensures WithTime(InsertByRecency(c, rows), t)
            == (if c.updatedAt == t then [c] else []) + WithTime(rows, t)
  {
    if |rows| == 0 || rows[0].updatedAt <= c.updatedAt {
      WithTimeCons(c, rows, t);
    } else {
      var tail := InsertByRecency(c, rows[1..]);
      InsertKeepsTies(c, rows[1..], t);
      WithTimeCons(rows[0], tail, t);
      WithTimeCons(rows[0], rows[1..], t);
      assert [rows[0]] + rows[1..] == rows;
    }
  }

  /** The sort is stable: rows with the same `updatedAt` keep their relative order. */
  lemma {:induction false} SortIsStable(rows: seq<Contact>, t: Timestamp)
    ensures WithTime(SortByRecency(rows), t) == WithTime(rows, t)
  {
    if |rows| > 0 {
      SortIsStable(rows[1..], t);
      InsertKeepsTies(rows[0], SortByRecency(rows[1..]), t);
    }
  }

  /** `loadUserChatrooms` after the request succeeded: every room becomes a row,
      the rows sorted newest first. */
  function LoadContacts(rooms: seq<Chatroom>, me: UserId): (r: seq<Contact>)
    ensures |r| == |rooms|
    ensures NewestFirst(r)
    ensures multiset(r) == multiset(seq(|rooms|, k requires 0 <= k < |rooms| => FormatRoom(rooms[k], me)))
  {
    SortByRecency(seq(|rooms|, k requires 0 <= k < |rooms| => FormatRoom(rooms[k], me)))
  }

  /** Each loaded row is built from one of the rooms, so its unread flag follows the last-message rule. */
  lemma LoadedRowsComeFromRooms(rooms: seq<Chatroom>, me: UserId, c: Contact)
    requires c in LoadContacts(rooms, me)
    ensures exists k :: 0 <= k < |rooms| && c == FormatRoom(rooms[k], me)
    ensures c.unread <= 1
  {
    var built := seq(|rooms|, k requires 0 <= k < |rooms| => FormatRoom(rooms[k], me));
    assert c in multiset(LoadContacts(rooms, me));
    assert c in multiset(built);
    var k :| 0 <= k < |built| && built[k] == c;
  }

  // ================================================================ chat-list updates

  /** The message a chat-list update carries; it may be absent. */
  datatype IncomingMessage = IncomingMessage(
    senderId: Option<UserId>,
    content: Option<string>,
    msgType: Option<string>,
    createdAt: Option<Timestamp>,
    readers: Option<seq<UserId>>)

  datatype ChatListUpdate = ChatListUpdate(chatRoomId: RoomId, message: Option<IncomingMessage>)

  const ImagePreview: string := "\U{1F4F7} Image"
  const AudioPreview: string := "\U{1F3A4} Audio message"

  /** `message?.type`. */
  function TypeOf(m: Option<IncomingMessage>): Option<string> {
    if m.Some? then m.value.msgType else None
  }

  /** The preview text of an updated row: an icon label for images and audio,
      else the message text, else the previous preview. */
  function PreviewText(previous: string, m: Option<IncomingMessage>): (p: string)
    ensures TypeOf(m) == Some("IMAGE") ==> p == ImagePreview
    ensures TypeOf(m) == Some("AUDIO") ==> p == AudioPreview
    ensures TypeOf(m) != Some("IMAGE") && TypeOf(m) != Some("AUDIO") ==>
              if m.Some? && Truthy(m.value.content) then p == m.value.content.value else p == previous
  {
    var text := if m.Some? then OrElse(m.value.content, previous) else previous;
    if TypeOf(m) == Some("IMAGE") then ImagePreview
    else if TypeOf(m) == Some("AUDIO") then AudioPreview
    else text
  }

  /** The unread counter of the updated row. */
  function NextUnread(unread: nat, upd: ChatListUpdate, active: Option<RoomId>, me: UserId): (n: nat)
    ensures active == Some(upd.chatRoomId) ==> n == 0
    ensures active != Some(upd.chatRoomId) ==>
              (n == unread + 1 <==> AwaitsReader(SenderOf(upd.message), ReadersOf(upd.message), me))
    ensures active != Some(upd.chatRoomId) && !AwaitsReader(SenderOf(upd.message), ReadersOf(upd.message), me) ==>
              n == unread
  {
    if active == Some(upd.chatRoomId) then 0
    else if SenderOf(upd.message) != Some(me) then
      if !ReadBy(ReadersOf(upd.message), me) then unread + 1 else unread
    else unread
  }

  /** `message?.senderId`. */
  function SenderOf(m: Option<IncomingMessage>): Option<UserId> {
    if m.Some? then m.value.senderId else None
  }

  /** `message?.readers`. */
  function ReadersOf(m: Option<IncomingMessage>): Option<seq<UserId>> {
    if m.Some? then m.value.readers else None
  }

  /** `message?.createdAt`. */
  function CreatedAtOf(m: Option<IncomingMessage>): Option<Timestamp> {
    if m.Some? then m.value.createdAt else None
  }

  /** The row a chat-list update makes of the room's existing row. */
  function UpdatedRow(existing: Contact, upd: ChatListUpdate, active: Option<RoomId>, me: UserId, now: Timestamp): (c: Contact)
    ensures c.id == existing.id && c.name == existing.name && c.avatar == existing.avatar
    ensures c.otherUserId == existing.otherUserId
    ensures c.preview == PreviewText(existing.preview, upd.message)
    ensures c.unread == NextUnread(existing.unread, upd, active, me)
    ensures Truthy(TypeOf(upd.message)) ==> c.messageType == TypeOf(upd.message).value
    ensures !Truthy(TypeOf(upd.message)) ==> c.messageType == existing.messageType
    ensures CreatedAtOf(upd.message).Some? ==>
              c.updatedAt == CreatedAtOf(upd.message).value && c.time == ClockOf(c.updatedAt)
    ensures CreatedAtOf(upd.message).None? ==> c.updatedAt == now && c.time == existing.time
  {
    var created := CreatedAtOf(upd.message);
    existing.(
      preview := PreviewText(existing.preview, upd.message),
      messageType := OrElse(TypeOf(upd.message), existing.messageType),
      time := if created.Some? then ClockOf(created.value) else existing.time,
      unread := NextUnread(existing.unread, upd, active, me),
      updatedAt := created.GetOr(now))
  }

  predicate HasRoom(rows: seq<Contact>, id: RoomId) {
    exists k :: 0 <= k < |rows| && rows[k].id == id
  }

  /** `rows.findIndex(c => c.id === id)`. */
  function FindRoom(rows: seq<Contact>, id: RoomId): (r: Option<nat>)
    ensures r.None? <==> !HasRoom(rows, id)
    ensures r.Some? ==> r.value < |rows| && rows[r.value].id == id
                        && forall j :: 0 <= j < r.value ==> rows[j].id != id
  {
    if |rows| == 0 then None
    else if rows[0].id == id then Some(0)
    else
      match FindRoom(rows[1..], id)
      case None => None
      case Some(i) => Some(i + 1)
  }

  function Ids(rows: seq<Contact>): (ids: seq<RoomId>)
    ensures |ids| == |rows| && forall k :: 0 <= k < |rows| ==> ids[k] == rows[k].id
  {
    seq(|rows|, k requires 0 <= k < |rows| => rows[k].id)
  }

  /** Removing the row at `i` and putting `c` in front keeps the ids when `c` has the removed row's id. */
  lemma MoveToFrontKeepsIds(rows: seq<Contact>, i: nat, c: Contact)
    requires i < |rows| && c.id == rows[i].id
    ensures multiset(Ids([c] + rows[..i] + rows[i + 1..])) == multiset(Ids(rows))
  {
    var ids := Ids(rows);
    assert ids == ids[..i] + [ids[i]] + ids[i + 1..];
    assert Ids([c] + rows[..i] + rows[i + 1..]) == [ids[i]] + ids[..i] + ids[i + 1..];
  }

  /** The chat-list update reducer (ChatList.jsx lines 159-205): an update for a room
      that has no row changes nothing; otherwise that room's row is updated and moved to
      the top while every other row keeps its relative order. */
  function ApplyUpdate(rows: seq<Contact>, upd: ChatListUpdate, active: Option<RoomId>, me: UserId, now: Timestamp)
    : (r: seq<Contact>)
    ensures !HasRoom(rows, upd.chatRoomId) ==> r == rows
    ensures |r| == |rows|
    ensures multiset(Ids(r)) == multiset(Ids(rows))
    ensures HasRoom(rows, upd.chatRoomId) ==>
              var i := FindRoom(rows, upd.chatRoomId).value;
              && r[0] == UpdatedRow(rows[i], upd, active, me, now)
              && r[1..] == rows[..i] + rows[i + 1..]
  {
    match FindRoom(rows, upd.chatRoomId)
    case None => rows
    case Some(i) =>
      var c := UpdatedRow(rows[i], upd, active, me, now);
      MoveToFrontKeepsIds(rows, i, c);
      [c] + rows[..i] + rows[i + 1..]
  }

  /** Room ids are unique in the list. */
  predicate DistinctIds(rows: seq<Contact>) {
    forall i, j :: 0 <= i < j < |rows| ==> rows[i].id != rows[j].id
  }

  /** An update never introduces a duplicate room row. */
  lemma ApplyUpdateKeepsDistinct(rows: seq<Contact>, upd: ChatListUpdate, active: Option<RoomId>, me: UserId, now: Timestamp)
    requires DistinctIds(rows)
    ensures DistinctIds(ApplyUpdate(rows, upd, active, me, now))
  {
    match FindRoom(rows, upd.chatRoomId)
    case None =>
    case Some(i) =>
      ApplyUpdateAt(rows, upd, active, me, now, i);
      var r := ApplyUpdate(rows, upd, active, me, now);
      var rest := rows[..i] + rows[i + 1..];
      assert r[1..] == rest;
      // The rows behind the top one are the old rows other than row i, in order.
      assert forall k :: 0 <= k < i ==> rest[k] == rows[k];
      assert forall k :: i <= k < |rest| ==> rest[k] == rows[k + 1];
      forall a, b | 0 <= a < b < |r| ensures r[a].id != r[b].id {
        assert r[b] == rest[b - 1];
        if a > 0 { assert r[a] == rest[a - 1]; }
      }
  }

  /** Applies updates in arrival order. */
  function ApplyAll(rows: seq<Contact>, upds: seq<ChatListUpdate>, active: Option<RoomId>, me: UserId, now: Timestamp)
    : (r: seq<Contact>)
    ensures |r| == |rows|
    decreases |upds|
  {
    if |upds| == 0 then rows
    else ApplyAll(ApplyUpdate(rows, upds[0], active, me, now), upds[1..], active, me, now)
  }

  /** Inbound messages for a room that is not open each add one to its counter:
      after `n` of them the room's row is on top with `n` more unread. */
  lemma {:induction false} InboundMessagesCount(
    rows: seq<Contact>, upds: seq<ChatListUpdate>, room: RoomId, active: Option<RoomId>, me: UserId, now: Timestamp)
    requires HasRoom(rows, room) && |upds| > 0
    requires active != Some(room)
    requires forall k :: 0 <= k < |upds| ==>
               upds[k].chatRoomId == room && AwaitsReader(SenderOf(upds[k].message), ReadersOf(upds[k].message), me)
    ensures var r := ApplyAll(rows, upds, active, me, now);
            r[0].id == room && r[0].unread == rows[FindRoom(rows, room).value].unread + |upds|
    decreases |upds|
  {
    var once := ApplyUpdate(rows, upds[0], active, me, now);
    var u := rows[FindRoom(rows, room).value].unread;
    assert once[0].unread == u + 1;
    if |upds| > 1 {
      assert HasRoom(once, room) by { assert once[0].id == room; }
      assert FindRoom(once, room) == Some(0);
      InboundMessagesCount(once, upds[1..], room, active, me, now);
    }
  }

  // ================================================================ opening a room

  /** The unread reset when a room becomes active (ChatList.jsx lines 209-217). */
  function ResetUnread(rows: seq<Contact>, active: Option<RoomId>): (r: seq<Contact>)
    ensures |r| == |rows|
    ensures !Truthy(active) ==> r == rows
    ensures forall k :: 0 <= k < |rows| ==> r[k].id == rows[k].id
    ensures forall k :: 0 <= k < |rows| && Truthy(active) && rows[k].id == active.value ==>
              r[k] == rows[k].(unread := 0)
    ensures forall k :: 0 <= k < |rows| && !(Truthy(active) && rows[k].id == active.value) ==>
              r[k] == rows[k]
  {
    if !Truthy(active) then rows
    else seq(|rows|, k requires 0 <= k < |rows| =>
               if rows[k].id == active.value then rows[k].(unread := 0) else rows[k])
  }

  /** Opening the same room twice is opening it once. */
  lemma ResetUnreadIdempotent(rows: seq<Contact>, active: Option<RoomId>)
    ensures ResetUnread(ResetUnread(rows, active), active) == ResetUnread(rows, active)
  {
  }

  /** After a room is opened it shows no unread messages. */
  lemma OpenedRoomHasNoUnread(rows: seq<Contact>, room: RoomId)
    requires room != ""
    ensures forall c :: c in ResetUnread(rows, Some(room)) && c.id == room ==> c.unread == 0
  {
  }

  /** Finding a room looks only at the ids. */
  lemma {:induction false} FindRoomByIds(a: seq<Contact>, b: seq<Contact>, id: RoomId)
    requires Ids(a) == Ids(b)
    ensures FindRoom(a, id) == FindRoom(b, id)
    decreases |a|
  {
    if |a| > 0 {
      assert a[0].id == Ids(a)[0] == Ids(b)[0] == b[0].id;
      assert Ids(a[1..]) == Ids(a)[1..] == Ids(b)[1..] == Ids(b[1..]);
      FindRoomByIds(a[1..], b[1..], id);
    }
  }

  /** The reset acts row by row, so it distributes over the reducer's reshuffling. */
  lemma ResetMoveToFront(rows: seq<Contact>, i: nat, c: Contact, active: Option<RoomId>)
    requires i < |rows|
    ensures ResetUnread([c] + rows[..i] + rows[i + 1..], active)
            == ResetUnread([c], active) + ResetUnread(rows, active)[..i] + ResetUnread(rows, active)[i + 1..]
  {
  }

  /** While a room is open, its update sets the counter to zero, so the counter it
      started from does not matter. */
  lemma UpdatedRowIgnoresOpenUnread(existing: Contact, n: nat, upd: ChatListUpdate, me: UserId, now: Timestamp)
    ensures var active := Some(upd.chatRoomId);
            UpdatedRow(existing.(unread := n), upd, active, me, now) == UpdatedRow(existing, upd, active, me, now)
  {
  }

  /** The reducer on a room found at index `i`. */
  lemma ApplyUpdateAt(rows: seq<Contact>, upd: ChatListUpdate, active: Option<RoomId>, me: UserId, now: Timestamp, i: nat)
    requires FindRoom(rows, upd.chatRoomId) == Some(i)
    ensures ApplyUpdate(rows, upd, active, me, now) == [UpdatedRow(rows[i], upd, active, me, now)] + rows[..i] + rows[i + 1..]
  {
  }

  /** While a room is open, an update for it and the unread reset commute: the
      open room's counter is zero whichever runs first. */
  lemma UpdateCommutesWithReset(rows: seq<Contact>, upd: ChatListUpdate, me: UserId, now: Timestamp)
    requires upd.chatRoomId != ""
    ensures var active := Some(upd.chatRoomId);
            ResetUnread(ApplyUpdate(rows, upd, active, me, now), active)
            == ApplyUpdate(ResetUnread(rows, active), upd, active, me, now)
  {
    var active := Some(upd.chatRoomId);
    var reset := ResetUnread(rows, active);
    assert Ids(reset) == Ids(rows);
    FindRoomByIds(reset, rows, upd.chatRoomId);
    match FindRoom(rows, upd.chatRoomId)
    case None =>
    case Some(i) =>
      var c := UpdatedRow(rows[i], upd, active, me, now);
      ApplyUpdateAt(rows, upd, active, me, now, i);
      ApplyUpdateAt(reset, upd, active, me, now, i);
      UpdatedRowIgnoresOpenUnread(rows[i], 0, upd, me, now);
      ResetMoveToFront(rows, i, c, active);
      assert ResetUnread([c], active) == [c];
  }

  // ================================================================ the list's effects

  /** What the list keeps between renders for its two effects: the rows, the open
      room, and the latest chat-list update it was handed. */
  datatype ListState = ListState(rows: seq<Contact>, active: Option<RoomId>, latest: Option<ChatListUpdate>)

  /** A new chat-list update arrives: the update effect (lines 154-206) runs with it. */
  function Receive(st: ListState, upd: ChatListUpdate, me: UserId, now: Timestamp): (r: ListState)
    ensures r.rows == ApplyUpdate(st.rows, upd, st.active, me, now)
    ensures r.active == st.active && r.latest == Some(upd)
  {
    ListState(ApplyUpdate(st.rows, upd, st.active, me, now), st.active, Some(upd))
  }

  /** The open room, the `activeChatRoomId` prop (line 15), changes to `room`: a
      click asks the parent to open a room (lines 148-151), and a parent may also
      clear it to `null`. Both effects
      that depend on the open room run again, in declaration order: the update
      effect with the latest update it was handed and the new open room, then the
      unread reset, which does nothing when no room is open. */
  function OpenRoom(st: ListState, room: Option<RoomId>, me: UserId, now: Timestamp): (r: ListState)
    ensures room == st.active ==> r == st
    ensures room != st.active ==> r.active == room && r.latest == st.latest && |r.rows| == |st.rows|
    ensures room != st.active && Truthy(room) ==> forall c :: c in r.rows && c.id == room.value ==> c.unread == 0
    ensures room != st.active && st.latest.None? ==> r.rows == ResetUnread(st.rows, room)
    ensures room != st.active && st.latest.Some? ==>
              r.rows == ResetUnread(ApplyUpdate(st.rows, st.latest.value, room, me, now), room)
    ensures room != st.active && !Truthy(room) && st.latest.Some? ==>
              r.rows == ApplyUpdate(st.rows, st.latest.value, room, me, now)
  {
    if room == st.active then st
    else
      var replayed := if st.latest.Some? then ApplyUpdate(st.rows, st.latest.value, room, me, now) else st.rows;
      ListState(ResetUnread(replayed, room), room, st.latest)
  }

  /** Changing the open room runs the latest update again. An inbound message for a
      room other than the old and the new open room raised that room's counter
      when it arrived; the change raises it a second time, and moves the row to
      the top again. The new open room may be none. */
  lemma SwitchingRoomsRecountsLatest(
    rows: seq<Contact>, active: Option<RoomId>, upd: ChatListUpdate, room: Option<RoomId>,
    me: UserId, now1: Timestamp, now2: Timestamp)
    requires HasRoom(rows, upd.chatRoomId)
    requires active != Some(upd.chatRoomId) && room != Some(upd.chatRoomId) && room != active
    requires AwaitsReader(SenderOf(upd.message), ReadersOf(upd.message), me)
    ensures var arrived := Receive(ListState(rows, active, None), upd, me, now1);
            var switched := OpenRoom(arrived, room, me, now2);
            var before := rows[FindRoom(rows, upd.chatRoomId).value].unread;
            && arrived.rows[0].id == upd.chatRoomId && arrived.rows[0].unread == before + 1
            && switched.rows[0].id == upd.chatRoomId && switched.rows[0].unread == before + 2
  {
    var arrived := Receive(ListState(rows, active, None), upd, me, now1);
    assert arrived.rows[0].id == upd.chatRoomId;
    assert FindRoom(arrived.rows, upd.chatRoomId) == Some(0);
    var replayed := ApplyUpdate(arrived.rows, upd, room, me, now2);
    assert replayed[0].unread == arrived.rows[0].unread + 1;
  }

  /** Leaving a room just after its message arrived marks that message unread: the
      message found the room open and left its counter at zero, and going back to
      the list runs it again with no room open, which counts it. */
  lemma LeavingRoomRecountsLatest(rows: seq<Contact>, upd: ChatListUpdate, me: UserId, now1: Timestamp, now2: Timestamp)
    requires HasRoom(rows, upd.chatRoomId)
    requires AwaitsReader(SenderOf(upd.message), ReadersOf(upd.message), me)
    ensures var arrived := Receive(ListState(rows, Some(upd.chatRoomId), None), upd, me, now1);
            var left := OpenRoom(arrived, None, me, now2);
            && arrived.rows[0].id == upd.chatRoomId && arrived.rows[0].unread == 0
            && left.rows[0].id == upd.chatRoomId && left.rows[0].unread == 1
  {
    var arrived := Receive(ListState(rows, Some(upd.chatRoomId), None), upd, me, now1);
    assert arrived.rows[0].id == upd.chatRoomId;
    assert FindRoom(arrived.rows, upd.chatRoomId) == Some(0);
  }

  // ================================================================ adding a contact

  /** A user offered by the search dialog. */
  datatype Candidate = Candidate(id: UserId, firstName: Option<string>, lastName: Option<string>, avatar: Option<string>)

  /** The list state `handleAddUser` touches, and what it asks of the parent. */
  datatype AddResult = AddResult(
    contacts: seq<Contact>,
    alreadyAdded: seq<UserId>,
    openRoom: Option<RoomId>,
    closeDialog: bool,
    clearSearch: bool)

  predicate HasPartner(rows: seq<Contact>, user: UserId) {
    exists k :: 0 <= k < |rows| && rows[k].otherUserId == Some(user)
  }

  /** `contacts.find(c => c.otherUserId === user)`, as an index. */
  function FindPartner(rows: seq<Contact>, user: UserId): (r: Option<nat>)
    ensures r.None? <==> !HasPartner(rows, user)
    ensures r.Some? ==> r.value < |rows| && rows[r.value].otherUserId == Some(user)
                        && forall j :: 0 <= j < r.value ==> rows[j].otherUserId != Some(user)
  {
    if |rows| == 0 then None
    else if rows[0].otherUserId == Some(user) then Some(0)
    else
      match FindPartner(rows[1..], user)
      case None => None
      case Some(i) => Some(i + 1)
  }

  /** The row `handleAddUser` prepends for a freshly created room. */
  function NewContact(room: RoomId, u: Candidate, now: Timestamp): Contact {
    Contact(
      id := room,
      name := Interpolate(u.firstName) + " " + Interpolate(u.lastName),
      preview := "New chat started...",
      messageType := "TEXT",
      avatar := Nonempty(u.avatar),
      time := Label("Just now"),
      unread := 0,
      otherUserId := Some(u.id),
      updatedAt := now)
  }

  /** What `handleAddUser` decides from the list as it is when the button is
      clicked: open the partner's existing row, or ask the server for a room. */
  datatype AddDecision = OpenExisting(room: RoomId) | CreateRoom

  function DecideAdd(snapshot: seq<Contact>, u: Candidate): (d: AddDecision)
    ensures d == CreateRoom <==> !HasPartner(snapshot, u.id)
    ensures d.OpenExisting? ==> d.room == snapshot[FindPartner(snapshot, u.id).value].id
  {
    match FindPartner(snapshot, u.id)
    case Some(i) => OpenExisting(snapshot[i].id)
    case None => CreateRoom
  }

  /** What happens once the server has answered: the new row is put in front of
      the list as it is by then (`setContacts(prev => [newContact, ...prev])`); a
      failed request changes nothing. No second look for an existing row is made. */
  function CommitAdd(current: seq<Contact>, alreadyAdded: seq<UserId>, u: Candidate, created: Option<RoomId>, now: Timestamp)
    : (r: AddResult)
    ensures created.None? ==> r == AddResult(current, alreadyAdded, None, false, false)
    ensures created.Some? ==>
              && |r.contacts| == |current| + 1 && r.contacts[1..] == current
              && r.contacts[0] == NewContact(created.value, u, now)
              && r.alreadyAdded == alreadyAdded + [u.id]
              && r.openRoom == created && r.closeDialog && r.clearSearch
  {
    match created
    case None => AddResult(current, alreadyAdded, None, false, false)
    case Some(room) => AddResult([NewContact(room, u, now)] + current, alreadyAdded + [u.id], Some(room), true, true)
  }

  /** `handleAddUser` when no other add is in flight: a user who already has a row
      opens that row; otherwise the room the server created (`created`, absent when
      the request failed) gets a new row on top. */
  function AddUser(rows: seq<Contact>, alreadyAdded: seq<UserId>, u: Candidate, created: Option<RoomId>, now: Timestamp)
    : (r: AddResult)
    ensures HasPartner(rows, u.id) ==>
              && r.contacts == rows && r.alreadyAdded == alreadyAdded
              && r.openRoom == Some(rows[FindPartner(rows, u.id).value].id)
              && r.closeDialog && !r.clearSearch
    ensures !HasPartner(rows, u.id) && created.None? ==>
              r == AddResult(rows, alreadyAdded, None, false, false)
    ensures !HasPartner(rows, u.id) && created.Some? ==>
              && |r.contacts| == |rows| + 1 && r.contacts[1..] == rows
              && r.contacts[0].id == created.value && r.contacts[0].unread == 0
              && r.contacts[0].otherUserId == Some(u.id)
              && r.alreadyAdded == alreadyAdded + [u.id]
              && r.openRoom == created && r.closeDialog && r.clearSearch
  {
    match DecideAdd(rows, u)
    case OpenExisting(room) => AddResult(rows, alreadyAdded, Some(room), true, false)
    case CreateRoom => CommitAdd(rows, alreadyAdded, u, created, now)
  }

  /** Each partner has at most one row. */
  predicate DistinctPartners(rows: seq<Contact>) {
    forall i, j :: 0 <= i < j < |rows| && rows[i].otherUserId.Some? ==> rows[i].otherUserId != rows[j].otherUserId
  }

  /** An add that completes before the next one starts never gives a partner a
      second row. */
  lemma AddUserKeepsPartnersDistinct(
    rows: seq<Contact>, alreadyAdded: seq<UserId>, u: Candidate, created: Option<RoomId>, now: Timestamp)
    requires DistinctPartners(rows)
    ensures DistinctPartners(AddUser(rows, alreadyAdded, u, created, now).contacts)
  {
    var r := AddUser(rows, alreadyAdded, u, created, now).contacts;
    if !HasPartner(rows, u.id) && created.Some? {
      forall i, j | 0 <= i < j < |r| && r[i].otherUserId.Some? ensures r[i].otherUserId != r[j].otherUserId {
        assert r[j] == rows[j - 1];
        if i > 0 { assert r[i] == rows[i - 1]; }
      }
    }
  }

  /** Two adds of the same user that overlap, both clicked before either request
      returned, both decide to create a room, and the list ends with two rows for
      that partner. */
  lemma OverlappingAddsRepeatPartner(
    rows: seq<Contact>, alreadyAdded: seq<UserId>, u: Candidate, room1: RoomId, room2: RoomId, now1: Timestamp, now2: Timestamp)
    requires !HasPartner(rows, u.id)
    ensures DecideAdd(rows, u) == CreateRoom
    ensures var first := CommitAdd(rows, alreadyAdded, u, Some(room1), now1);
            var second := CommitAdd(first.contacts, first.alreadyAdded, u, Some(room2), now2);
            && second.contacts[0].otherUserId == Some(u.id)
            && second.contacts[1].otherUserId == Some(u.id)
            && !DistinctPartners(second.contacts)
  {
  }

  // ================================================================ search listing

  /** The "Added" marker of the search dialog (ChatList.jsx lines 292-294). */
  predicate AlreadyAdded(rows: seq<Contact>, alreadyAdded: seq<UserId>, user: UserId) {
    HasPartner(rows, user) || user in alreadyAdded
  }

  datatype SearchRow = SearchRow(user: Candidate, added: bool)

  /** `results.filter(u => u.id !== me)`: the results other than `me`, in result
      order and with repeats kept. */
  function OtherUsers(results: seq<Candidate>, me: UserId): (r: seq<Candidate>)
    ensures |r| <= |results|
    ensures forall u :: u in r <==> u in results && u.id != me
    ensures |results| == 1 ==> r == if results[0].id == me then [] else results
  {
    if |results| == 0 then []
    else
      var rest := OtherUsers(results[1..], me);
      assert results == [results[0]] + results[1..];
      if results[0].id == me then rest else [results[0]] + rest
  }

  /** The filter works piece by piece: filtering two result lists one after the
      other is filtering them joined. With the single-result case this fixes the
      filter completely, order and repeats included. */
  lemma {:induction false} OtherUsersAppend(a: seq<Candidate>, b: seq<Candidate>, me: UserId)
    ensures OtherUsers(a + b, me) == OtherUsers(a, me) + OtherUsers(b, me)
    decreases |a|
  {
    if |a| > 0 {
      assert (a + b)[0] == a[0];
      assert (a + b)[1..] == a[1..] + b;
      OtherUsersAppend(a[1..], b, me);
    } else {
      assert a + b == b;
    }
  }

  /** The search results shown in the dialog: one row per result other than `me`,
      in the filter's order, each marked when they already have a row or were added
      in this session. */
  function SearchRows(results: seq<Candidate>, me: UserId, rows: seq<Contact>, alreadyAdded: seq<UserId>)
    : (r: seq<SearchRow>)
    ensures |r| == |OtherUsers(results, me)|
    ensures forall k :: 0 <= k < |r| ==> r[k].user == OtherUsers(results, me)[k]
    ensures forall k :: 0 <= k < |r| ==> r[k].user in results && r[k].user.id != me
    ensures forall u :: u in results && u.id != me ==> exists k :: 0 <= k < |r| && r[k].user == u
    ensures forall k :: 0 <= k < |r| ==> (r[k].added <==> AlreadyAdded(rows, alreadyAdded, r[k].user.id))
  {
    var shown := OtherUsers(results, me);
    var r := seq(|shown|, k requires 0 <= k < |shown| => SearchRow(shown[k], AlreadyAdded(rows, alreadyAdded, shown[k].id)));
    forall u | u in results && u.id != me ensures exists k :: 0 <= k < |r| && r[k].user == u {
      var k :| 0 <= k < |shown| && shown[k] == u;
      assert r[k].user == u;
    }
    r
  }

  /** Once a user has been added, the search dialog marks them as added. */
  lemma AddedUserIsMarked(
    rows: seq<Contact>, alreadyAdded: seq<UserId>, u: Candidate, room: RoomId, now: Timestamp)
    ensures var r := AddUser(rows, alreadyAdded, u, Some(room), now);
            AlreadyAdded(r.contacts, r.alreadyAdded, u.id)
  {
    var r := AddUser(rows, alreadyAdded, u, Some(room), now);
    if !HasPartner(rows, u.id) {
      assert r.contacts[0].otherUserId == Some(u.id);
    }
  }

  // ================================================================ unread badge

  /** The unread badge: hidden at zero, the count up to 99, then "99+". */
  function Badge(unread: nat): (b: Option<string>)
    ensures b.None? <==> unread == 0
    ensures b == Some("99+") <==> unread > 99
    ensures b.Some? && unread <= 99 ==>
              |b.value| <= 2 && AllDigits(b.value) && DigitsValue(b.value) == unread
    ensures b.Some? && unread <= 99 ==> b.value == Decimal(unread)
    ensures b.Some? && |b.value| == 2 ==> b.value[0] != '0'
  {
    if unread == 0 then None
    else if unread > 99 then Some("99+")
    else
      var d := Decimal(unread);
      assert unread >= 10 ==> |Decimal(unread / 10)| == 1;
      Some(d)
  }
}
