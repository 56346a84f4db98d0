/** Concrete runs of the chat store from a fresh user's record. */
module Scenarios {
  import opened Wrappers
  import opened Messages
  import opened PyStr
  import opened OrderedDict
  import opened ChatStore

  /** Two new chats from a fresh record are "Chat 2" and "Chat 3": the count
      includes "default". */
  lemma TwoNewChats()
    ensures var u2 := NewChat(NewChat(DefaultState));
      && Keys(u2.chats) == [DefaultChat, "Chat 2", "Chat 3"]
      && u2.active == "Chat 3"
      && Inv(u2)
  {
    DefaultStateInv();
    assert NewChatName(2) == "Chat 2" by {
      assert NatToString(2) == "2";
    }
    assert NewChatName(3) == "Chat 3" by {
      assert NatToString(3) == "3";
    }
    var u1 := NewChat(DefaultState);
    assert "Chat 2" !in [DefaultChat];
    assert Keys(u1.chats) == [DefaultChat, "Chat 2"];
    assert "Chat 3" !in [DefaultChat, "Chat 2"];
  }

  /** After those two new chats, renaming "Chat 2" to "Chat 3" is refused
      and leaves the record as it was. */
  lemma RenameOntoTakenName()
    ensures var u3 := SelectChat(NewChat(NewChat(DefaultState)), "Chat 2");
      RenameChat(u3, "Chat 3") == Refused(NameTaken)
  {
    TwoNewChats();
  }

  /** With chats "default", "Chat 2" and "Chat 3" (as two new chats from a
      fresh record give), deleting "Chat 2" leaves two chats, so the next new
      chat is named "Chat 3" again and replaces the existing "Chat 3" with a
      fresh thread: the chat count does not grow and its history is lost. */
  lemma NewChatNameCollision(u: UserState)
    requires Inv(u) && Keys(u.chats) == [DefaultChat, "Chat 2", "Chat 3"]
    ensures var u4 := After(u, DeleteChat(u, "Chat 2"));
      && Get(u4.chats, "Chat 3") == Get(u.chats, "Chat 3")
      && NewChat(u4).active == "Chat 3"
      && Get(NewChat(u4).chats, "Chat 3") == Some([Persona])
      && |NewChat(u4).chats| == |u4.chats| == 2
  {
    assert "Chat 2" in Keys(u.chats) && "Chat 2" != DefaultChat;
    var d := DeleteChat(u, "Chat 2");
    var u4 := d.state;
    assert |u4.chats| == 2;
    assert "Chat 3" in Keys(u4.chats) by {
      assert "Chat 3" in Keys(u.chats) && "Chat 3" != "Chat 2";
      assert Keys(u4.chats) == Without(Keys(u.chats), "Chat 2");
    }
    assert NewChatName(3) == "Chat 3" by {
      assert NatToString(3) == "3";
    }
    var u5 := NewChat(u4);
    assert Keys(u5.chats) == Keys(u4.chats);
  }

  /** In general, a new chat whose computed name is taken replaces that chat
      instead of adding one. */
  lemma NewChatOverwritesTakenName(u: UserState)
    requires NewChatName(|u.chats| + 1) in Keys(u.chats)
    ensures Keys(NewChat(u).chats) == Keys(u.chats)
    ensures Get(NewChat(u).chats, NewChatName(|u.chats| + 1)) == Some([Persona])
  {
  }

  /** The "default" chat can be neither deleted nor renamed. */
  lemma DefaultIsProtected(u: UserState, newName: string)
    ensures DeleteChat(u, DefaultChat) == Refused(DefaultProtected)
    ensures RenameChat(u.(active := DefaultChat), newName) == Refused(DefaultProtected)
  {
  }
}
