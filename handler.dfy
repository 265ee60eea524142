/** `TrashmailHandler.handle_DATA`: decode the message, then route every
    recipient and store the message in the mailbox of each one delivered.
    The reply is `250 OK` once decoding succeeded, however many recipients
    were stored, and `500 Could not process your message` otherwise, with
    nothing written. */
module Handler {
  import opened Common
  import opened Routing
  import opened Mime
  import opened Storage
  import opened Timestamp
  import opened Config

  /** What the SMTP server hands over: the peer's address, the sender as
      `parseaddr` returns it, the recipients as given, the raw message
      decoded as UTF-8 with replacement, and the parsed message. */
  datatype Envelope = Envelope(
    peerIp: string,
    mailFrom: string,
    rcptTos: seq<string>,
    raw: string,
    message: Message)

  const ReplyOk: string := "250 OK"
  const ReplyFailed: string := "500 Could not process your message"

  /** The mailboxes the recipient loop stores into, in recipient order. */
  function Mailboxes(rcpts: seq<string>, domains: seq<string>, discardUnknown: bool): seq<string>
    decreases |rcpts|
  {
    if rcpts == [] then []
    else
      var v := Route(rcpts[|rcpts| - 1], domains, discardUnknown);
      Mailboxes(rcpts[..|rcpts| - 1], domains, discardUnknown) + if v.Deliver? then [v.mailbox] else []
  }

  /** `savedata` before the recipient loop: sender, every original
      recipient, the raw text, and the parsed content with an empty
      attachment list. */
  function Template(env: Envelope, content: Content): StoredRecord {
    StoredRecord(env.peerIp, env.mailFrom, env.rcptTos, env.raw,
                 Parsed(content.subject, content.body, content.htmlBody, env.mailFrom, []))
  }

  /** One delivered recipient: the mailbox directory if it is missing, then
      per attachment the `attachments/` directory if it is missing, the
      attachment file and one more name on the shared list, and last the
      record, which reports the shared list as it stands. */
  method StoreMessage(disk: DataDir, em: string, base: string, atts: seq<Attachment>,
                      template: StoredRecord, shared: seq<string>, now: real)
    returns (shared': seq<string>)
    modifies disk
    ensures shared' == shared + StoredNames(base, atts)
    ensures disk.State() == StoreOne(old(disk.State()), em, base, atts,
                                     template.(parsed := template.parsed.(attachments := shared')), now)
  {
    ghost var before := disk.State();
    ghost var names := StoredNames(base, atts);
    var mailbox := MailboxPath(em);
    if mailbox !in disk.dirs {
      disk.MakeDir(mailbox);
    }
    shared' := shared;
    for k := 0 to |atts|
      invariant shared' == shared + names[..k]
      invariant disk.files == WriteAttachments(before.files, em, base, atts[..k], now)
      invariant disk.dirs == before.dirs + {mailbox} + (if k > 0 then {AttachmentDir(em)} else {})
    {
      assert atts[..k + 1][..k] == atts[..k];
      assert names[..k + 1] == names[..k] + [names[k]];
      if AttachmentDir(em) !in disk.dirs {
        disk.MakeDir(AttachmentDir(em));
      }
      var a := atts[k];
      disk.WriteFile(AttachmentPath(em, base, a.name), Blob(a.content), now);
      shared' := shared' + [StoredName(base, a.name)];
    }
    assert atts[..|atts|] == atts;
    assert names[..|atts|] == names;
    disk.WriteFile(RecordPath(em, base), Json(template.(parsed := template.parsed.(attachments := shared'))), now);
  }

  /** The head of the recipient loop: lower-case the recipient, skip it if
      it fails the address pattern, and skip it if discarding is on and no
      domain rule matches its domain. */
  method Accept(settings: Settings, rcpt: string) returns (em: string, accepted: bool)
    ensures em == Lower(rcpt)
    ensures accepted <==> Route(rcpt, settings.domains, settings.discardUnknown).Deliver?
  {
    em := Lower(rcpt);
    if !MatchesRecipientPattern(em) {
      return em, false;
    }
    var domain := DomainOf(em);
    var found := FindDomain(settings.domains, domain);
    if settings.discardUnknown && !found {
      return em, false;
    }
    accepted := true;
  }

  /** The `else` branch: build the record template, compute the file-name
      token once, and run the recipient loop. */
  method StoreForRecipients(settings: Settings, disk: DataDir, env: Envelope, content: Content, now: real)
    modifies disk
    ensures disk.State() == StoreAll(old(disk.State()),
                                     Mailboxes(env.rcptTos, settings.domains, settings.discardUnknown),
                                     FilenameBase(now), content.attachments, Template(env, content), now)
  {
    var atts := content.attachments;
    var template := Template(env, content);
    var base := FilenameBase(now);
    ghost var names := StoredNames(base, atts);
    ghost var start := disk.State();
    ghost var delivered: seq<string> := [];
    // the attachment list of `edata`, shared by every recipient's record
    var shared: seq<string> := [];
    for i := 0 to |env.rcptTos|
      invariant delivered == Mailboxes(env.rcptTos[..i], settings.domains, settings.discardUnknown)
      invariant shared == Repeat(names, |delivered|)
      invariant disk.State() == StoreAll(start, delivered, base, atts, template, now)
    {
      MailboxesSnoc(env.rcptTos, i, settings.domains, settings.discardUnknown);
      var em, accepted := Accept(settings, env.rcptTos[i]);
      if accepted {
        ghost var pre := disk.State();
        shared := StoreMessage(disk, em, base, atts, template, shared, now);
        assert shared == Repeat(names, |delivered| + 1);
        StoreAllSnoc(start, delivered, em, base, atts, template, now);
        delivered := delivered + [em];
        assert disk.State() == StoreAll(start, delivered, base, atts, template, now);
        assert delivered == Mailboxes(env.rcptTos[..i + 1], settings.domains, settings.discardUnknown);
      } else {
        assert delivered == Mailboxes(env.rcptTos[..i + 1], settings.domains, settings.discardUnknown);
      }
    }
    assert env.rcptTos[..|env.rcptTos|] == env.rcptTos;
  }

  /** The handler. `now` is the clock reading `time.time()` gives. */
  method HandleData(settings: Settings, disk: DataDir, env: Envelope,
                    codec: Codec, utf8: Bytes -> string, now: real) returns (reply: string)
    modifies disk
    ensures var parsed := Parse(env.message, codec, utf8);
      && (parsed.None? ==> reply == ReplyFailed && disk.State() == old(disk.State()))
      && (parsed.Some? ==>
            && reply == ReplyOk
            && disk.State() == StoreAll(old(disk.State()),
                                        Mailboxes(env.rcptTos, settings.domains, settings.discardUnknown),
                                        FilenameBase(now), parsed.value.attachments,
                                        Template(env, parsed.value), now))
  {
    var parsed := ParseMessage(env.message, codec, utf8);
    if parsed.None? {
      return ReplyFailed;
    }
    StoreForRecipients(settings, disk, env, parsed.value, now);
    reply := ReplyOk;
  }

  /** One more recipient extends the mailbox list by its mailbox exactly
      when routing delivers it. */
  lemma MailboxesSnoc(rcpts: seq<string>, i: nat, domains: seq<string>, discardUnknown: bool)
    requires i < |rcpts|
    ensures Mailboxes(rcpts[..i + 1], domains, discardUnknown) ==
      Mailboxes(rcpts[..i], domains, discardUnknown)
      + if Route(rcpts[i], domains, discardUnknown).Deliver? then [Lower(rcpts[i])] else []
  {
    assert rcpts[..i + 1][..i] == rcpts[..i];
  }

  /** One more delivered mailbox is one more `StoreOne`, whose record lists
      one more round of attachment names. */
  lemma StoreAllSnoc(t: Tree, delivered: seq<string>, em: string, base: string,
                     atts: seq<Attachment>, template: StoredRecord, mtime: real)
    ensures StoreAll(t, delivered + [em], base, atts, template, mtime) ==
      StoreOne(StoreAll(t, delivered, base, atts, template, mtime), em, base, atts,
               template.(parsed := template.parsed.(attachments :=
                 Repeat(StoredNames(base, atts), |delivered|) + StoredNames(base, atts))), mtime)
  {
    assert (delivered + [em])[..|delivered|] == delivered;
  }

  // ---------------------------------------------------------------------
  // Properties of the recipient loop

  /** Every mailbox stored into belongs to a recipient that routing
      delivers there. */
  lemma {:induction false} MailboxesSound(rcpts: seq<string>, domains: seq<string>, discardUnknown: bool)
    ensures |Mailboxes(rcpts, domains, discardUnknown)| <= |rcpts|
    ensures forall em | em in Mailboxes(rcpts, domains, discardUnknown) ::
      exists i | 0 <= i < |rcpts| ::
        Route(rcpts[i], domains, discardUnknown).Deliver? && Route(rcpts[i], domains, discardUnknown).mailbox == em
    decreases |rcpts|
  {
    if rcpts != [] {
      var n := |rcpts|;
      var init := rcpts[..n - 1];
      MailboxesSound(init, domains, discardUnknown);
      var v := Route(rcpts[n - 1], domains, discardUnknown);
      assert Mailboxes(rcpts, domains, discardUnknown) ==
        Mailboxes(init, domains, discardUnknown) + if v.Deliver? then [v.mailbox] else [];
      forall em | em in Mailboxes(rcpts, domains, discardUnknown)
        ensures exists i | 0 <= i < n ::
          Route(rcpts[i], domains, discardUnknown).Deliver? && Route(rcpts[i], domains, discardUnknown).mailbox == em
      {
        if em in Mailboxes(init, domains, discardUnknown) {
          var i :| 0 <= i < n - 1 && Route(init[i], domains, discardUnknown).Deliver?
                   && Route(init[i], domains, discardUnknown).mailbox == em;
          assert init[i] == rcpts[i];
        } else {
          assert v.Deliver? && em == v.mailbox;
          assert Route(rcpts[n - 1], domains, discardUnknown) == v;
        }
      }
    }
  }

  /** Every recipient that routing delivers has its lower-cased form among
      the mailboxes stored into. */
  lemma {:induction false} MailboxesComplete(rcpts: seq<string>, domains: seq<string>, discardUnknown: bool)
    ensures forall i | 0 <= i < |rcpts| && Route(rcpts[i], domains, discardUnknown).Deliver? ::
      Lower(rcpts[i]) in Mailboxes(rcpts, domains, discardUnknown)
    decreases |rcpts|
  {
    if rcpts != [] {
      var n := |rcpts|;
      var init := rcpts[..n - 1];
      MailboxesComplete(init, domains, discardUnknown);
      var v := Route(rcpts[n - 1], domains, discardUnknown);
      assert Mailboxes(rcpts, domains, discardUnknown) ==
        Mailboxes(init, domains, discardUnknown) + if v.Deliver? then [v.mailbox] else [];
      forall i | 0 <= i < n && Route(rcpts[i], domains, discardUnknown).Deliver?
        ensures Lower(rcpts[i]) in Mailboxes(rcpts, domains, discardUnknown)
      {
        if i < n - 1 {
          assert init[i] == rcpts[i];
        } else {
          assert v.mailbox == Lower(rcpts[i]);
        }
      }
    }
  }

  /** A recipient that is not delivered (an invalid address, or an unknown
      domain with discarding on) adds nothing to the loop's work. */
  lemma UndeliveredAddsNothing(rcpts: seq<string>, r: string, domains: seq<string>, discardUnknown: bool)
    requires !Route(r, domains, discardUnknown).Deliver?
    ensures Mailboxes(rcpts + [r], domains, discardUnknown) == Mailboxes(rcpts, domains, discardUnknown)
  {
    assert (rcpts + [r])[..|rcpts|] == rcpts;
  }

  /** When no recipient is delivered the tree is left as it was; with
      discarding on this is the case when no recipient's domain is known. */
  lemma {:induction false} NoDeliveryNoWrites(t: Tree, rcpts: seq<string>, domains: seq<string>,
                                              discardUnknown: bool, base: string,
                                              atts: seq<Attachment>, template: StoredRecord, mtime: real)
    requires forall i | 0 <= i < |rcpts| :: !Route(rcpts[i], domains, discardUnknown).Deliver?
    ensures Mailboxes(rcpts, domains, discardUnknown) == []
    ensures StoreAll(t, Mailboxes(rcpts, domains, discardUnknown), base, atts, template, mtime) == t
    decreases |rcpts|
  {
    if rcpts != [] {
      var init := rcpts[..|rcpts| - 1];
      assert forall i | 0 <= i < |init| :: init[i] == rcpts[i];
      NoDeliveryNoWrites(t, init, domains, discardUnknown, base, atts, template, mtime);
    }
  }

  /** A message for `not-an-address` alone stores nothing. */
  lemma OnlyInvalidRecipient(domains: seq<string>, discardUnknown: bool)
    ensures Mailboxes(["not-an-address"], domains, discardUnknown) == []
  {
    var em := Lower("not-an-address");
    assert em == "not-an-address";
    assert '@' !in em;
    assert !MatchesRecipientPattern(em);
    assert ["not-an-address"][..0] == [];
  }

  /** Every record the handler writes for a message lists all of the
      message's original recipients, not only the mailbox's own. */
  lemma RecordsCarryAllRecipients(env: Envelope, content: Content, base: string, names: seq<string>, n: nat)
    ensures RecordFor(Template(env, content), names, n).rcpts == env.rcptTos
    ensures RecordFor(Template(env, content), names, n).from == env.mailFrom
    ensures RecordFor(Template(env, content), names, n).parsed.subject == content.subject
  {
  }
}
