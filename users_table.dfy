/** The row-edit controller of the users table: which row is being edited,
    the draft of that row, the rule that decides what an edit-mode input
    shows, and the handlers that open, change, save, cancel and delete. */
module UsersTable {
  import opened JsValues

  /** The keys of a user record. */
  datatype Field = UserId | FirstName | Username | LastName | Email | PhoneNumber | Gender | UserType

  /** A user record as the table receives it. `phone_number` is declared a
      number; `type` is a reserved word in Dafny, hence `userType`. */
  datatype User = User(
    user_id: int,
    first_name: string,
    username: string,
    last_name: string,
    email: string,
    phone_number: int,
    gender: string,
    userType: string)

  /** A partial user: the keys present and their values. Typed text is
      stored as text even for the phone number. */
  type Draft = map<Field, JsValue>

  const ALL_FIELDS: set<Field> := {UserId, FirstName, Username, LastName, Email, PhoneNumber, Gender, UserType}

  /** The editable columns, in the order the table shows them. The id
      column has no input. */
  const EDITABLE_COLUMNS: seq<Field> := [FirstName, LastName, Username, Email, PhoneNumber, UserType, Gender]

  /** ALL_FIELDS lists every key. */
  lemma EveryFieldListed(f: Field)
    ensures f in ALL_FIELDS
  {
  }

  /** The value of one key of a record. */
  function Baseline(user: User, f: Field): JsValue
  {
    match f
    case UserId => Number(user.user_id)
    case FirstName => Text(user.first_name)
    case Username => Text(user.username)
    case LastName => Text(user.last_name)
    case Email => Text(user.email)
    case PhoneNumber => Number(user.phone_number)
    case Gender => Text(user.gender)
    case UserType => Text(user.userType)
  }

  /** The record itself used as a draft: every key, with the record's value. */
  function Snapshot(user: User): (d: Draft)
    ensures d.Keys == ALL_FIELDS
    ensures forall f: Field :: f in d && d[f] == Baseline(user, f)
  {
    assert forall f: Field :: f in ALL_FIELDS by {
      forall f: Field ensures f in ALL_FIELDS { EveryFieldListed(f); }
    }
    map f: Field | f in ALL_FIELDS :: Baseline(user, f)
  }

  /** `editingUser === user.user_id`: the row test. `null` matches no row. */
  predicate InEditMode(editingUser: Option<int>, user: User): (b: bool)
    ensures editingUser == None ==> !b
    ensures b ==> editingUser.value == user.user_id
  {
    editingUser == Some(user.user_id)
  }

  /** What the input of column `f` shows in edit mode:
      `editedUserData.f || user.f`. A draft entry that is missing or empty
      shows the record's value; an entry with content shows as typed, so
      the input is blank only when both are. */
  function DisplayedValue(draft: Draft, user: User, f: Field): (r: JsValue)
    ensures f in draft && Truthy(draft[f]) ==> r == draft[f]
    ensures (f !in draft || !Truthy(draft[f])) ==> r == Baseline(user, f)
    ensures Truthy(Baseline(user, f)) ==> Truthy(r)
  {
    Or(if f in draft then Some(draft[f]) else None, Baseline(user, f))
  }

  /** The option values of the two drop-downs, in the order they are listed. */
  const TYPE_OPTIONS: seq<string> := ["admin", "user", "member"]
  const GENDER_OPTIONS: seq<string> := ["masculino", "femenino", "no binario", "otros"]

  /** The type and gender columns are edited through a drop-down. */
  predicate IsSelect(f: Field)
  {
    f == UserType || f == Gender
  }

  function Options(f: Field): seq<string>
  {
    match f
    case UserType => TYPE_OPTIONS
    case Gender => GENDER_OPTIONS
    case _ => []
  }

  /** What an edit-mode cell shows for the value bound to it. A text input
      shows the value. A controlled drop-down shows the option whose value
      equals it and, when none does, falls back to its first option (no
      option value is numeric, so a number matches none). */
  function Shown(f: Field, v: JsValue): (r: JsValue)
    ensures !IsSelect(f) ==> r == v
    ensures IsSelect(f) ==> r.Text? && r.s in Options(f)
    ensures IsSelect(f) && v.Text? && v.s in Options(f) ==> r == v
    ensures IsSelect(f) && !(v.Text? && v.s in Options(f)) ==> r == Text(Options(f)[0])
  {
    if !IsSelect(f) then v
    else if v.Text? && v.s in Options(f) then v
    else Text(Options(f)[0])
  }

  /** The state of the controller: the id of the row in edit mode (or
      null) and the draft. */
  datatype EditSession = EditSession(editingUser: Option<int>, draft: Draft)

  /** The initial state, `useState(null)` and `useState({})`, and the state
      after cancel or a successful save. */
  function Idle(): EditSession
  {
    EditSession(None, map[])
  }

  /** `handleEdit(user)`: that row in edit mode, seeded with the full record,
      whatever was being edited before. */
  function Opened(user: User): EditSession
  {
    EditSession(Some(user.user_id), Snapshot(user))
  }

  /** A field's `onChange`: the draft spread with one key replaced by the
      input's text. */
  function Overlaid(s: EditSession, f: Field, text: string): EditSession
  {
    s.(draft := s.draft[f := Text(text)])
  }

  /** `handleSave` once the prompt and the request have answered: cleared
      only when confirmed and the PUT succeeded. */
  function Saved(s: EditSession, confirmed: bool, succeeded: bool): EditSession
  {
    if confirmed && succeeded then Idle() else s
  }

  /** The requests the table sends: `PUT user/update/{id}` with a body,
      and `DELETE user/delete/{id}`. */
  datatype TableRequest = UpdateUser(id: int, body: Draft) | DeleteUser(id: int)

  /** The request `handleSave(user)` issues: none when declined, otherwise
      the draft as it stands, addressed by the clicked row's id. */
  function SaveRequest(s: EditSession, user: User, confirmed: bool): Option<TableRequest>
  {
    if confirmed then Some(UpdateUser(user.user_id, s.draft)) else None
  }

  /** One rendered row: its id, whether it is in edit mode, and the values
      of its editable columns. */
  datatype RowView = RowView(id: int, editing: bool, cells: seq<JsValue>)

  /** One `<TableRow>`: in view mode each cell shows the record's value; in
      edit mode each cell shows what its input or drop-down makes of the
      value bound to it, `editedUserData.f || user.f`. */
  function RenderRow(user: User, s: EditSession): (r: RowView)
    ensures r.id == user.user_id
    ensures r.editing <==> InEditMode(s.editingUser, user)
    ensures |r.cells| == |EDITABLE_COLUMNS|
    ensures forall i :: 0 <= i < |EDITABLE_COLUMNS| && !r.editing ==> r.cells[i] == Baseline(user, EDITABLE_COLUMNS[i])
    ensures forall i :: 0 <= i < |EDITABLE_COLUMNS| && r.editing ==>
              r.cells[i] == Shown(EDITABLE_COLUMNS[i], DisplayedValue(s.draft, user, EDITABLE_COLUMNS[i]))
    ensures forall i :: 0 <= i < |EDITABLE_COLUMNS| && r.editing && IsSelect(EDITABLE_COLUMNS[i]) ==>
              r.cells[i].Text? && r.cells[i].s in Options(EDITABLE_COLUMNS[i])
  {
    var editing := InEditMode(s.editingUser, user);
    RowView(user.user_id, editing,
            seq(|EDITABLE_COLUMNS|, i requires 0 <= i < |EDITABLE_COLUMNS| =>
                  if editing then Shown(EDITABLE_COLUMNS[i], DisplayedValue(s.draft, user, EDITABLE_COLUMNS[i]))
                  else Baseline(user, EDITABLE_COLUMNS[i])))
  }

  /** `users.map(...)`: one row per record, in the order received. */
  function RenderTable(users: seq<User>, s: EditSession): (rows: seq<RowView>)
    ensures |rows| == |users|
    ensures forall i :: 0 <= i < |users| ==>
              rows[i].id == users[i].user_id && (rows[i].editing <==> s.editingUser == Some(users[i].user_id))
    ensures forall i :: 0 <= i < |users| ==> rows[i] == RenderRow(users[i], s)
  {
    if users == [] then [] else [RenderRow(users[0], s)] + RenderTable(users[1..], s)
  }

  function CountEditRows(rows: seq<RowView>): nat
  {
    if rows == [] then 0 else (if rows[0].editing then 1 else 0) + CountEditRows(rows[1..])
  }

  ghost predicate UniqueIds(users: seq<User>)
  {
    forall i, j :: 0 <= i < j < |users| ==> users[i].user_id != users[j].user_id
  }

  predicate HasRow(users: seq<User>, id: int)
  {
    exists i :: 0 <= i < |users| && users[i].user_id == id
  }

  /** With unique ids, exactly one row is in edit mode when the edited id is
      one of the table's rows, and none otherwise. */
  lemma {:induction false} EditRowCount(users: seq<User>, s: EditSession)
    requires UniqueIds(users)
    ensures CountEditRows(RenderTable(users, s)) ==
              if s.editingUser.Some? && HasRow(users, s.editingUser.value) then 1 else 0
  {
    if users != [] {
      var tail := users[1..];
      assert UniqueIds(tail) by {
        forall i, j | 0 <= i < j < |tail| ensures tail[i].user_id != tail[j].user_id {
          assert tail[i] == users[i + 1] && tail[j] == users[j + 1];
        }
      }
      EditRowCount(tail, s);
      assert RenderTable(users, s)[1..] == RenderTable(tail, s);
      if s.editingUser.Some? {
        var id := s.editingUser.value;
        if users[0].user_id == id {
          assert HasRow(users, id);
          assert !HasRow(tail, id) by {
            forall k | 0 <= k < |tail| ensures tail[k].user_id != id {
              assert tail[k] == users[k + 1];
            }
          }
        } else {
          assert HasRow(users, id) == HasRow(tail, id) by {
            if HasRow(users, id) {
              var k :| 0 <= k < |users| && users[k].user_id == id;
              assert tail[k - 1].user_id == id;
            }
            if HasRow(tail, id) {
              var k :| 0 <= k < |tail| && tail[k].user_id == id;
              assert users[k + 1].user_id == id;
            }
          }
        }
      }
    }
  }

  /** Entering edit mode shows every cell's record value through its input
      or drop-down: the text inputs show exactly what the row showed in view
      mode, and so do the drop-downs whose record value is one of their
      options. */
  lemma OpenedRowShowsRecord(user: User)
    ensures RenderRow(user, Opened(user)).editing
    ensures forall i :: 0 <= i < |EDITABLE_COLUMNS| ==>
              RenderRow(user, Opened(user)).cells[i] == Shown(EDITABLE_COLUMNS[i], RenderRow(user, Idle()).cells[i])
    ensures forall i :: 0 <= i < |EDITABLE_COLUMNS| && !IsSelect(EDITABLE_COLUMNS[i]) ==>
              RenderRow(user, Opened(user)).cells[i] == RenderRow(user, Idle()).cells[i]
    ensures user.userType in TYPE_OPTIONS && user.gender in GENDER_OPTIONS ==>
              RenderRow(user, Opened(user)).cells == RenderRow(user, Idle()).cells
  {
  }

  /** A record whose type is not one of the drop-down's options (such as
      the new-user form's "Miembro") opens with the drop-down on its first
      option, "admin", while a save without touching it still sends the
      record's own type. */
  lemma UnlistedTypeShowsFirstOption(user: User)
    requires user.userType !in TYPE_OPTIONS
    ensures EDITABLE_COLUMNS[5] == UserType
    ensures RenderRow(user, Idle()).cells[5] == Text(user.userType)
    ensures RenderRow(user, Opened(user)).cells[5] == Text("admin")
    ensures SaveRequest(Opened(user), user, true).value.body[UserType] == Text(user.userType)
  {
  }

  /** Typing into one input changes what that input shows (to the text
      typed, or back to the record's value when the text is empty) and
      nothing else on the row. */
  lemma TypingShowsOnlyInThatInput(s: EditSession, user: User, f: Field, text: string, g: Field)
    ensures DisplayedValue(Overlaid(s, f, text).draft, user, g) ==
              if g != f then DisplayedValue(s.draft, user, g)
              else if text != "" then Text(text)
              else Baseline(user, f)
  {
  }

  /** An emptied input shows the record's value again, yet a confirmed save
      sends the empty string for that key: what is sent is not what is shown. */
  lemma EmptiedFieldShowsRecordButIsSent(s: EditSession, user: User, f: Field)
    requires Truthy(Baseline(user, f))
    ensures DisplayedValue(Overlaid(s, f, "").draft, user, f) == Baseline(user, f)
    ensures DisplayedValue(Overlaid(s, f, "").draft, user, f) != Text("")
    ensures SaveRequest(Overlaid(s, f, ""), user, true) == Some(UpdateUser(user.user_id, s.draft[f := Text("")]))
  {
  }

  /** The component's state. `users` is the prop: no handler changes it,
      but the parent may render the component again with another list. */
  class UsersTableState {
    var users: seq<User>
    var editingUser: Option<int>
    var editedUserData: Draft

    function Session(): EditSession
      reads this
    {
      EditSession(editingUser, editedUserData)
    }

    function Rows(): (rows: seq<RowView>)
      reads this
      ensures |rows| == |users|
    {
      RenderTable(users, Session())
    }

    constructor (users: seq<User>)
      ensures this.users == users
      ensures editingUser == None && editedUserData == map[]
      ensures Session() == Idle()
    {
      this.users := users;
      editingUser := None;
      editedUserData := map[];
    }

    /** The parent renders the table again with a new `users` prop (another
        search); the state variables keep their values. */
    method ReceiveUsers(users: seq<User>)
      modifies this`users
      ensures this.users == users
      ensures Session() == old(Session())
    {
      this.users := users;
    }

    /** `handleEdit`: replaces any earlier session by one on `user` whose
        draft is the full record. */
    method HandleEdit(user: User)
      modifies this`editingUser, this`editedUserData
      ensures editingUser == Some(user.user_id)
      ensures editedUserData.Keys == ALL_FIELDS
      ensures forall f: Field :: f in editedUserData && editedUserData[f] == Baseline(user, f)
      ensures Session() == Opened(user)
    {
      editingUser := Some(user.user_id);
      editedUserData := Snapshot(user);
    }

    /** The `onChange` of the input of column `f`: that key takes the text;
        every other key and the edited id stay. */
    method ChangeField(f: Field, text: string)
      requires f in EDITABLE_COLUMNS
      modifies this`editedUserData
      ensures editingUser == old(editingUser)
      ensures f in editedUserData && editedUserData[f] == Text(text)
      ensures editedUserData.Keys == old(editedUserData).Keys + {f}
      ensures forall g :: g in old(editedUserData) && g != f ==> editedUserData[g] == old(editedUserData)[g]
      ensures Session() == Overlaid(old(Session()), f, text)
    {
      editedUserData := editedUserData[f := Text(text)];
    }

    /** `handleSave`, given the prompt's answer and, when asked, whether the
        PUT succeeded. Declined: no request and no change. Confirmed: the
        draft is sent as it stands; state is cleared on success and kept,
        draft and all, on failure. */
    method HandleSave(user: User, confirmed: bool, succeeded: bool) returns (request: Option<TableRequest>)
      modifies this`editingUser, this`editedUserData
      ensures request == (if confirmed then Some(UpdateUser(user.user_id, old(editedUserData))) else None)
      ensures confirmed && succeeded ==> editingUser == None && editedUserData == map[]
      ensures !(confirmed && succeeded) ==> editingUser == old(editingUser) && editedUserData == old(editedUserData)
      ensures request == SaveRequest(old(Session()), user, confirmed)
      ensures Session() == Saved(old(Session()), confirmed, succeeded)
    {
      request := None;
      if confirmed {
        request := Some(UpdateUser(user.user_id, editedUserData));
        if succeeded {
          editingUser := None;
          editedUserData := map[];
        }
      }
    }

    /** `handleCancelEdit`: from any state, nothing in edit mode and an
        empty draft. */
    method HandleCancelEdit()
      modifies this`editingUser, this`editedUserData
      ensures editingUser == None && editedUserData == map[]
      ensures Session() == Idle()
    {
      editingUser := None;
      editedUserData := map[];
    }

    /** `handleDelete`: a DELETE for the row only when confirmed. It changes
        no state, whatever the request's outcome, which only gets logged. */
    method HandleDelete(user: User, confirmed: bool, succeeded: bool) returns (request: Option<TableRequest>)
      ensures confirmed <==> request.Some?
      ensures request.Some? ==> request.value == DeleteUser(user.user_id)
    {
      if confirmed {
        request := Some(DeleteUser(user.user_id));
      } else {
        request := None;
      }
    }
  }
}
