/** Runs of the users table: the sequences of clicks, keystrokes and new
    `users` props the rendered table allows, and what holds of the
    controller's state along every such run. */
module UsersTableRuns {
  import opened JsValues
  import opened UsersTable

  /** What the user sees and what the component holds: the `users` prop
      and the controller's state. */
  datatype Screen = Screen(users: seq<User>, session: EditSession)

  /** One user action, with the answers of the prompt and of the request
      where the handler waits for them, or a new `users` prop from the
      parent (another search). */
  datatype UiEvent =
    | ClickEdit(user: User)
    | TypeInto(field: Field, text: string)
    | ClickSave(user: User, confirmed: bool, succeeded: bool)
    | ClickCancel
    | ClickDelete(user: User, confirmed: bool, succeeded: bool)
    | NewUsers(users: seq<User>)

  /** The screen after one event, as the handlers leave it. A new prop
      replaces the rows and keeps the state variables. */
  function Step(sc: Screen, e: UiEvent): Screen
  {
    match e
    case ClickEdit(u) => sc.(session := Opened(u))
    case TypeInto(f, text) => sc.(session := Overlaid(sc.session, f, text))
    case ClickSave(_, confirmed, succeeded) => sc.(session := Saved(sc.session, confirmed, succeeded))
    case ClickCancel => sc.(session := Idle())
    case ClickDelete(_, _, _) => sc
    case NewUsers(users) => sc.(users := users)
  }

  function Run(sc: Screen, events: seq<UiEvent>): Screen
    decreases |events|
  {
    if events == [] then sc else Run(Step(sc, events[0]), events[1..])
  }

  /** Some row of the table is in edit mode. */
  predicate EditRowShown(sc: Screen)
  {
    sc.session.editingUser.Some? && HasRow(sc.users, sc.session.editingUser.value)
  }

  /** What the rendered table offers: the pencil and the bin on rows in
      view mode, the tick on the row in edit mode, the cross, the text
      inputs and the drop-downs (whose values are their options) only while
      a row is in edit mode. The parent may pass a new prop at any time. */
  predicate Enabled(sc: Screen, e: UiEvent): (b: bool)
    ensures b && (e.ClickEdit? || e.ClickSave? || e.ClickDelete?) ==> e.user in sc.users
    ensures b && (e.TypeInto? || e.ClickSave? || e.ClickCancel?) ==> sc.session.editingUser.Some?
    ensures b && e.TypeInto? ==> e.field != UserId
    ensures b && e.ClickSave? ==> sc.session.editingUser == Some(e.user.user_id)
  {
    match e
    case ClickEdit(u) => u in sc.users && !InEditMode(sc.session.editingUser, u)
    case TypeInto(f, text) => f in EDITABLE_COLUMNS && (IsSelect(f) ==> text in Options(f)) && EditRowShown(sc)
    case ClickSave(u, _, _) => u in sc.users && InEditMode(sc.session.editingUser, u)
    case ClickCancel => EditRowShown(sc)
    case ClickDelete(u, _, _) => u in sc.users && !InEditMode(sc.session.editingUser, u)
    case NewUsers(_) => true
  }

  predicate EnabledRun(sc: Screen, events: seq<UiEvent>)
    decreases |events|
  {
    events == [] || (Enabled(sc, events[0]) && EnabledRun(Step(sc, events[0]), events[1..]))
  }

  /** The shape of the draft along every run: nothing in edit mode goes
      with an empty draft; a row id in edit mode goes with a draft holding
      every key, whose `user_id` is that id. */
  predicate DraftShaped(s: EditSession)
  {
    match s.editingUser
    case None => s.draft == map[]
    case Some(id) => s.draft.Keys == ALL_FIELDS && s.draft[UserId] == Number(id)
  }

  /** Every event keeps the draft's shape, new props included. */
  lemma StepKeepsDraftShaped(sc: Screen, e: UiEvent)
    requires DraftShaped(sc.session)
    requires Enabled(sc, e)
    ensures DraftShaped(Step(sc, e).session)
  {
  }

  lemma {:induction false} RunKeepsDraftShaped(sc: Screen, events: seq<UiEvent>)
    requires DraftShaped(sc.session)
    requires EnabledRun(sc, events)
    ensures DraftShaped(Run(sc, events).session)
    decreases |events|
  {
    if events != [] {
      StepKeepsDraftShaped(sc, events[0]);
      RunKeepsDraftShaped(Step(sc, events[0]), events[1..]);
    }
  }

  /** The draft is shaped, and the row in edit mode, if any, is one of the
      table's rows. */
  predicate Consistent(sc: Screen)
  {
    && DraftShaped(sc.session)
    && (sc.session.editingUser.Some? ==> HasRow(sc.users, sc.session.editingUser.value))
  }

  lemma IdleIsConsistent(users: seq<User>)
    ensures Consistent(Screen(users, Idle()))
  {
  }

  /** Every action on the table itself keeps the screen consistent. */
  lemma StepKeepsConsistent(sc: Screen, e: UiEvent)
    requires Consistent(sc)
    requires Enabled(sc, e)
    requires !e.NewUsers?
    ensures Consistent(Step(sc, e))
  {
  }

  /** While the prop stays the same, every run keeps the screen consistent. */
  lemma {:induction false} RunKeepsConsistent(sc: Screen, events: seq<UiEvent>)
    requires Consistent(sc)
    requires EnabledRun(sc, events)
    requires forall k :: 0 <= k < |events| ==> !events[k].NewUsers?
    ensures Consistent(Run(sc, events))
    ensures Run(sc, events).users == sc.users
    decreases |events|
  {
    if events != [] {
      StepKeepsConsistent(sc, events[0]);
      RunKeepsConsistent(Step(sc, events[0]), events[1..]);
    }
  }

  /** Along any run the table allows, new props included, and provided the
      rows on screen have unique ids: at most one row is in edit mode, and
      none while nothing is being edited. */
  lemma AtMostOneEditRow(users: seq<User>, events: seq<UiEvent>)
    requires EnabledRun(Screen(users, Idle()), events)
    requires UniqueIds(Run(Screen(users, Idle()), events).users)
    ensures var sc := Run(Screen(users, Idle()), events);
            && CountEditRows(RenderTable(sc.users, sc.session)) <= 1
            && (sc.session.editingUser.None? ==> CountEditRows(RenderTable(sc.users, sc.session)) == 0)
  {
    var sc := Run(Screen(users, Idle()), events);
    EditRowCount(sc.users, sc.session);
  }

  /** While the prop stays the same, with unique ids: exactly one row is in
      edit mode while `editingUser` is set, and none otherwise. */
  lemma OneEditRowWhileEditing(users: seq<User>, events: seq<UiEvent>)
    requires UniqueIds(users)
    requires EnabledRun(Screen(users, Idle()), events)
    requires forall k :: 0 <= k < |events| ==> !events[k].NewUsers?
    ensures var sc := Run(Screen(users, Idle()), events);
            CountEditRows(RenderTable(sc.users, sc.session)) ==
              if sc.session.editingUser.Some? then 1 else 0
  {
    RunKeepsConsistent(Screen(users, Idle()), events);
    var sc := Run(Screen(users, Idle()), events);
    EditRowCount(sc.users, sc.session);
  }

  /** A new prop can hide the row being edited: open a row, then receive a
      list without it; `editingUser` and the full draft stay, yet no row is
      in edit mode. */
  lemma SearchCanHideEditedRow(u: User, others: seq<User>)
    requires !HasRow(others, u.user_id)
    ensures EnabledRun(Screen([u], Idle()), [ClickEdit(u), NewUsers(others)])
    ensures var sc := Run(Screen([u], Idle()), [ClickEdit(u), NewUsers(others)]);
            && sc.session == Opened(u)
            && sc.users == others
            && CountEditRows(RenderTable(sc.users, sc.session)) == 0
  {
    var events := [ClickEdit(u), NewUsers(others)];
    var sc0 := Screen([u], Idle());
    assert Step(sc0, events[0]) == Screen([u], Opened(u));
    assert events[1..] == [NewUsers(others)];
    assert Run(sc0, events) == Run(Screen([u], Opened(u)), [NewUsers(others)]);
    assert EnabledRun(Screen([u], Opened(u)), [NewUsers(others)]) by {
      assert [NewUsers(others)][1..] == [];
    }
    assert Run(Screen([u], Opened(u)), [NewUsers(others)]) == Screen(others, Opened(u)) by {
      assert [NewUsers(others)][1..] == [];
    }
    CountWithoutRow(others, Opened(u));
  }

  lemma {:induction false} CountWithoutRow(users: seq<User>, s: EditSession)
    requires s.editingUser.Some? && !HasRow(users, s.editingUser.value)
    ensures CountEditRows(RenderTable(users, s)) == 0
  {
    if users != [] {
      assert users[0].user_id != s.editingUser.value;
      assert !HasRow(users[1..], s.editingUser.value) by {
        forall k | 0 <= k < |users[1..]| ensures users[1..][k].user_id != s.editingUser.value {
          assert users[1..][k] == users[k + 1];
        }
      }
      assert RenderTable(users, s)[1..] == RenderTable(users[1..], s);
      CountWithoutRow(users[1..], s);
    }
  }

  /** Along any run the table allows, new props included, a confirmed save
      sends a full record whose `user_id` is the id in the URL. */
  lemma SaveSendsFullRecord(users: seq<User>, events: seq<UiEvent>, u: User, succeeded: bool)
    requires EnabledRun(Screen(users, Idle()), events)
    requires Enabled(Run(Screen(users, Idle()), events), ClickSave(u, true, succeeded))
    ensures var request := SaveRequest(Run(Screen(users, Idle()), events).session, u, true);
            && request.Some? && request.value.UpdateUser?
            && request.value.id == u.user_id
            && request.value.body.Keys == ALL_FIELDS
            && request.value.body[UserId] == Number(u.user_id)
  {
    RunKeepsDraftShaped(Screen(users, Idle()), events);
  }

  /** Deletes and declined or failed saves change nothing; any run of them
      leaves the screen as it was. */
  lemma {:induction false} NoEffectRun(sc: Screen, events: seq<UiEvent>)
    requires forall k :: 0 <= k < |events| ==>
               events[k].ClickDelete? || (events[k].ClickSave? && !(events[k].confirmed && events[k].succeeded))
    ensures Run(sc, events) == sc
    decreases |events|
  {
    if events != [] {
      assert Step(sc, events[0]) == sc;
      NoEffectRun(sc, events[1..]);
    }
  }
}
