/** The `/chats` menu: the keyboard `chats_command` offers and the state
    machine `button_callback` and `rename_chat` drive. Admin membership is a
    parameter. */
module Menu {
  import opened Wrappers
  import opened PyStr
  import opened OrderedDict
  import opened ChatStore

  /** The conversation states, with `End` for `ConversationHandler.END`. */
  datatype ConvState = Choosing | RenamingChat | AdminMenu | AdminBroadcast | AdminEditChangelog | AdminEditHelp | End

  datatype Step = Step(next: ConvState, state: UserState)

  const SelectPrefix := "select_chat:"

  predicate StartsWith(s: string, prefix: string) {
    |prefix| <= |s| && s[..|prefix|] == prefix
  }

  /** The callback data of the button that selects chat `name`. */
  function SelectData(name: string): string {
    SelectPrefix + name
  }

  /** `data.split(":")[1]`: the text between the first and second colon. */
  function SelectedName(data: string): string
    requires StartsWith(data, SelectPrefix)
  {
    assert data[11] == ':';
    Split(data, ':')[1]
  }

  /** Pressing a chat's button selects that chat exactly when its name has no
      colon; otherwise it selects the part of the name before the first colon,
      a different name. */
  lemma SelectRoundTrip(name: string)
    ensures StartsWith(SelectData(name), SelectPrefix)
    ensures ':' !in name ==> SelectedName(SelectData(name)) == name
    ensures ':' in name ==> SelectedName(SelectData(name)) != name
    ensures |SelectedName(SelectData(name))| <= |name|
    ensures SelectedName(SelectData(name)) == name[..|SelectedName(SelectData(name))|]
  {
    var data := SelectData(name);
    assert data == "select_chat" + [':'] + name;
    SplitAtFirst("select_chat", ':', name);
    assert SelectedName(data) == Split(name, ':')[0];
    if ':' !in name {
      SplitWithoutSeparator(name, ':');
    }
  }

  /** The callback data of the buttons `chats_command` shows, in order: new
      chat, one per chat in dictionary order, rename and delete unless the
      active chat is "default", and the admin menu for admins. */
  function ChatsKeyboard(u: UserState, isAdmin: bool): (buttons: seq<string>)
    ensures |buttons| == 1 + |u.chats| + (if u.active != DefaultChat then 2 else 0) + (if isAdmin then 1 else 0)
    ensures buttons[0] == "new_chat"
    ensures forall i :: 0 <= i < |u.chats| ==> buttons[1 + i] == SelectData(u.chats[i].key)
    ensures "admin_menu" in buttons <==> isAdmin
    ensures "rename_chat" in buttons <==> u.active != DefaultChat
    ensures "delete_chat" in buttons <==> u.active != DefaultChat
  {
    var selects := seq(|u.chats|, i requires 0 <= i < |u.chats| => SelectData(u.chats[i].key));
    var manage := if u.active != DefaultChat then ["rename_chat", "delete_chat"] else [];
    var admin := if isAdmin then ["admin_menu"] else [];
    assert forall i :: 0 <= i < |selects| ==> selects[i][0] == 's';
    ["new_chat"] + selects + manage + admin
  }

  datatype AdminAction = OpenMenu | Broadcast | EditChangelog | EditHelp | Stats | Back

  /** The callback data of each admin button. */
  function AdminData(a: AdminAction): string {
    match a
    case OpenMenu => "admin_menu"
    case Broadcast => "admin_broadcast"
    case EditChangelog => "admin_edit_changelog"
    case EditHelp => "admin_edit_help"
    case Stats => "admin_stats"
    case Back => "admin_back"
  }

  /** A callback token, recognised in the order `button_callback` tests them. */
  datatype Token =
    | NewChatToken
    | SelectToken(name: string)
    | RenameToken
    | DeleteToken
    | AdminToken(action: AdminAction)
    | OtherToken

  function ParseToken(data: string): (t: Token)
    ensures t == NewChatToken <==> data == "new_chat"
    ensures t.SelectToken? <==> data != "new_chat" && StartsWith(data, SelectPrefix)
    ensures t == RenameToken <==> data == "rename_chat"
    ensures t == DeleteToken <==> data == "delete_chat"
    ensures t.AdminToken? ==> data == AdminData(t.action)
    ensures t == OtherToken ==>
      && data != "new_chat" && data != "rename_chat" && data != "delete_chat"
      && !StartsWith(data, SelectPrefix)
      && forall a :: data != AdminData(a)
  {
    if data == "new_chat" then NewChatToken
    else if StartsWith(data, SelectPrefix) then SelectToken(SelectedName(data))
    else if data == "rename_chat" then RenameToken
    else if data == "delete_chat" then DeleteToken
    else if data == "admin_menu" then AdminToken(OpenMenu)
    else if data == "admin_broadcast" then AdminToken(Broadcast)
    else if data == "admin_edit_changelog" then AdminToken(EditChangelog)
    else if data == "admin_edit_help" then AdminToken(EditHelp)
    else if data == "admin_stats" then AdminToken(Stats)
    else if data == "admin_back" then AdminToken(Back)
    else OtherToken
  }

  /** Every admin button's data is read back as that admin action. */
  lemma ParseAdminData(a: AdminAction)
    ensures ParseToken(AdminData(a)) == AdminToken(a)
  {
    var d := AdminData(a);
    assert d[0] == 'a';
    assert !StartsWith(d, SelectPrefix) by {
      if |SelectPrefix| <= |d| {
        assert d[..|SelectPrefix|][0] == 'a' != 's' == SelectPrefix[0];
      }
    }
  }

  /** A select button's data is read back as a selection. */
  lemma ParseSelectData(name: string)
    ensures ParseToken(SelectData(name)) == SelectToken(SelectedName(SelectData(name)))
  {
    var d := SelectData(name);
    SelectRoundTrip(name);
    assert d[0] == 's';
  }

  /** The state an admin's button leads to. "Back" re-runs `chats_command`,
      which replies through `update.message`; a button press carries no
      message, so the handler raises and the conversation stays put. */
  function AdminStep(a: AdminAction): Result<ConvState, Failure> {
    match a
    case OpenMenu => Success(AdminMenu)
    case Broadcast => Success(AdminBroadcast)
    case EditChangelog => Success(AdminEditChangelog)
    case EditHelp => Success(AdminEditHelp)
    case Stats => Success(AdminMenu)
    case Back => Failure(NoMessage)
  }

  /** `button_callback`. Only new-chat, select and delete tokens change the
      record; admin tokens from a non-admin and unknown tokens fall through
      to `Choosing` with the record unchanged; admin tokens from an admin
      lead to their screen, except "back", which raises; deleting a chat
      that no longer exists raises too. */
  function ButtonCallback(data: string, isAdmin: bool, u: UserState): (r: Result<Step, Failure>)
    ensures r.Failure? <==>
      || (ParseToken(data) == DeleteToken && u.active != DefaultChat && u.active !in Keys(u.chats))
      || (ParseToken(data) == AdminToken(Back) && isAdmin)
    ensures r.Failure? && ParseToken(data) == DeleteToken ==> r.error == KeyError(u.active)
    ensures r.Failure? && ParseToken(data).AdminToken? ==> r.error == NoMessage
    ensures r.Success? && r.value.state != u ==> ParseToken(data).NewChatToken? || ParseToken(data).SelectToken? || ParseToken(data) == DeleteToken
    ensures ParseToken(data) == NewChatToken ==> r == Success(Step(End, NewChat(u)))
    ensures ParseToken(data) == DeleteToken && u.active == DefaultChat ==> r == Success(Step(End, u))
    ensures ParseToken(data) == DeleteToken && u.active != DefaultChat && u.active in Keys(u.chats) ==>
      r == Success(Step(End, After(u, DeleteChat(u, u.active))))
    ensures ParseToken(data).AdminToken? && !isAdmin ==> r == Success(Step(Choosing, u))
    ensures ParseToken(data).AdminToken? && r.Success? ==> r.value.state == u
    ensures ParseToken(data) == OtherToken ==> r == Success(Step(Choosing, u))
    ensures ParseToken(data) == RenameToken ==> r == Success(Step(if u.active == DefaultChat then End else RenamingChat, u))
    ensures ParseToken(data).SelectToken? ==> r == Success(Step(End, SelectChat(u, ParseToken(data).name)))
    ensures Inv(u) && r.Success? ==> Inv(r.value.state)
  {
    match ParseToken(data)
    case NewChatToken => Success(Step(End, NewChat(u)))
    case SelectToken(name) => Success(Step(End, SelectChat(u, name)))
    case RenameToken => Success(Step(if u.active == DefaultChat then End else RenamingChat, u))
    case DeleteToken =>
      if u.active == DefaultChat then Success(Step(End, u))
      else (match DeleteChat(u, u.active)
        case Raised(f) => Failure(f)
        case o => Success(Step(End, After(u, o))))
    case AdminToken(a) =>
      if !isAdmin then Success(Step(Choosing, u))
      else (match AdminStep(a)
        case Success(next) => Success(Step(next, u))
        case Failure(f) => Failure(f))
    case OtherToken => Success(Step(Choosing, u))
  }

  /** The text sent in the `RenamingChat` state: a taken name keeps the user in
      that state to try again; every other outcome ends the conversation. */
  function RenameInput(u: UserState, newName: string): (r: Result<Step, Failure>)
    ensures r.Success? && r.value.next == RenamingChat <==> u.active != DefaultChat && newName in Keys(u.chats)
    ensures r.Success? ==> r.value.state == After(u, RenameChat(u, newName))
    ensures r.Failure? <==> RenameChat(u, newName).Raised?
    ensures r.Success? && r.value.next != RenamingChat ==> r.value.next == End
  {
    match RenameChat(u, newName)
    case Raised(f) => Failure(f)
    case Refused(NameTaken) => Success(Step(RenamingChat, u))
    case o => Success(Step(End, After(u, o)))
  }

  /** Each admin button: a non-admin falls through to `Choosing`; for an
      admin, "back" raises and every other button reaches its screen, the
      statistics and the menu itself both on the admin menu. No admin button
      changes the record. */
  lemma AdminButtons(a: AdminAction, isAdmin: bool, u: UserState)
    ensures !isAdmin ==> ButtonCallback(AdminData(a), isAdmin, u) == Success(Step(Choosing, u))
    ensures isAdmin && a == Back ==> ButtonCallback(AdminData(a), isAdmin, u) == Failure(NoMessage)
    ensures isAdmin && a != Back ==> ButtonCallback(AdminData(a), isAdmin, u).Success?
    ensures isAdmin && (a == OpenMenu || a == Stats) ==>
      ButtonCallback(AdminData(a), isAdmin, u) == Success(Step(AdminMenu, u))
    ensures isAdmin && a == Broadcast ==>
      ButtonCallback(AdminData(a), isAdmin, u) == Success(Step(AdminBroadcast, u))
    ensures isAdmin && a == EditChangelog ==>
      ButtonCallback(AdminData(a), isAdmin, u) == Success(Step(AdminEditChangelog, u))
    ensures isAdmin && a == EditHelp ==>
      ButtonCallback(AdminData(a), isAdmin, u) == Success(Step(AdminEditHelp, u))
  {
    ParseAdminData(a);
  }
}
