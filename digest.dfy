/**
 * The text `send_daily_reminders` posts to the channel: a header, then per signup a line
 * with name and handle and a line with its slots joined by " | ".
 */
module Digest {
  import opened Wrappers
  import opened Text
  import opened Sheets

  const Header := "📢 **Расписание презентаций на завтра**\n\n"
  const SlotDelimiter := " | "

  /** The two lines (and blank line) one signup contributes. */
  function Entry(s: Signup): string {
    "👤 " + s.name + " (@" + s.username + ")\n⏰ " + Join(s.slots, SlotDelimiter) + "\n\n"
  }

  /** The entries of all signups, one per signup, in list order. */
  function EntryTexts(signups: seq<Signup>): (texts: seq<string>)
    ensures |texts| == |signups|
  {
    seq(|signups|, i requires 0 <= i < |signups| => Entry(signups[i]))
  }

  /** The message to post, or none when there is nothing to announce. */
  function DigestOf(signups: seq<Signup>): Option<string> {
    if signups == [] then None else Some(Header + Concat(EntryTexts(signups)))
  }

  /** An entry mentions its signup's name, its handle and each of its slots. */
  lemma EntryMentions(s: Signup)
    ensures Contains(Entry(s), s.name)
    ensures Contains(Entry(s), s.username)
    ensures forall k :: 0 <= k < |s.slots| ==> Contains(Entry(s), s.slots[k])
  {
    var slotsText := Join(s.slots, SlotDelimiter);
    ContainsMiddle("👤 ", s.name, " (@" + s.username + ")\n⏰ " + slotsText + "\n\n");
    assert Entry(s) == "👤 " + s.name + (" (@" + s.username + ")\n⏰ " + slotsText + "\n\n");
    ContainsMiddle("👤 " + s.name + " (@", s.username, ")\n⏰ " + slotsText + "\n\n");
    assert Entry(s) == "👤 " + s.name + " (@" + s.username + (")\n⏰ " + slotsText + "\n\n");
    var before := "👤 " + s.name + " (@" + s.username + ")\n⏰ ";
    ContainsMiddle(before, slotsText, "\n\n");
    forall k | 0 <= k < |s.slots|
      ensures Contains(Entry(s), s.slots[k])
    {
      JoinContainsParts(s.slots, SlotDelimiter, k);
      ContainsTransitive(Entry(s), slotsText, s.slots[k]);
    }
  }

  /**
   * No signups, no message; otherwise one message that mentions every signup's name,
   * handle and slots.
   */
  lemma DigestMentionsEverySignup(signups: seq<Signup>)
    ensures DigestOf(signups).None? <==> signups == []
    ensures forall i :: 0 <= i < |signups| ==>
      && Contains(DigestOf(signups).value, signups[i].name)
      && Contains(DigestOf(signups).value, signups[i].username)
      && forall k :: 0 <= k < |signups[i].slots| ==> Contains(DigestOf(signups).value, signups[i].slots[k])
  {
    forall i | 0 <= i < |signups|
      ensures Contains(DigestOf(signups).value, signups[i].name)
      ensures Contains(DigestOf(signups).value, signups[i].username)
      ensures forall k :: 0 <= k < |signups[i].slots| ==> Contains(DigestOf(signups).value, signups[i].slots[k])
    {
      var s := signups[i];
      var text := DigestOf(signups).value;
      ConcatContainsPieces(EntryTexts(signups), i);
      ContainsRight(Header, Concat(EntryTexts(signups)), Entry(s));
      EntryMentions(s);
      ContainsTransitive(text, Entry(s), s.name);
      ContainsTransitive(text, Entry(s), s.username);
      forall k | 0 <= k < |s.slots|
        ensures Contains(text, s.slots[k])
      {
        ContainsTransitive(text, Entry(s), s.slots[k]);
      }
    }
  }

  /** One more signup adds its entry at the end. */
  lemma EntryTextsStep(signups: seq<Signup>, i: nat)
    requires i < |signups|
    ensures Concat(EntryTexts(signups[..i + 1])) == Concat(EntryTexts(signups[..i])) + Entry(signups[i])
  {
    var texts := EntryTexts(signups[..i + 1]);
    assert texts[..i] == EntryTexts(signups[..i]);
    assert texts[i] == Entry(signups[i]);
  }

  /** The message built with `+=`, one entry per loop iteration. */
  method ComposeDigest(signups: seq<Signup>) returns (message: string)
    ensures message == Header + Concat(EntryTexts(signups))
  {
    message := Header;
    for i := 0 to |signups|
      invariant message == Header + Concat(EntryTexts(signups[..i]))
    {
      var signup := signups[i];
      var slotsText := Join(signup.slots, " | ");
      var entry := "👤 " + signup.name + " (@" + signup.username + ")\n⏰ " + slotsText + "\n\n";
      assert entry == Entry(signup);
      EntryTextsStep(signups, i);
      message := message + entry;
    }
    assert signups[..|signups|] == signups;
  }
}
