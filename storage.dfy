/** The storage tree under `../data/`: one directory per mailbox, a JSON
    record `<base>.json` per delivered message, and the attachment files
    `attachments/<base>-<name>`. The file system is a map from paths to
    entries plus a set of directories. */
module Storage {
  import opened Common
  import opened Mime

  type Path = string

  const DataRoot: Path := "../data/"

  /** `edata`: the parsed part of a record. */
  datatype Parsed = Parsed(
    subject: string,
    body: string,
    htmlBody: string,
    from: string,
    attachments: seq<string>)

  /** `savedata`, the document `json.dump` writes. */
  datatype StoredRecord = StoredRecord(
    senderIp: string,
    from: string,
    rcpts: seq<string>,
    raw: string,
    parsed: Parsed)

  datatype FileContent = Blob(bytes: Bytes) | Json(record: StoredRecord)

  /** A file and its modification time. */
  datatype Entry = Entry(content: FileContent, mtime: real)

  /** A snapshot of the storage tree. */
  datatype Tree = Tree(files: map<Path, Entry>, dirs: set<Path>)

  // ---------------------------------------------------------------------
  // Layout

  function MailboxPath(em: string): Path {
    DataRoot + em
  }

  function AttachmentDir(em: string): Path {
    MailboxPath(em) + "/attachments"
  }

  /** The name an attachment is stored and listed under: `<base>-<name>`. */
  function StoredName(base: string, name: string): string {
    base + "-" + name
  }

  function AttachmentPath(em: string, base: string, name: string): Path {
    AttachmentDir(em) + "/" + StoredName(base, name)
  }

  function RecordPath(em: string, base: string): Path {
    MailboxPath(em) + "/" + base + ".json"
  }

  /** The names one recipient's attachment loop appends, in order. */
  function StoredNames(base: string, atts: seq<Attachment>): (names: seq<string>)
    ensures |names| == |atts|
    ensures forall k | 0 <= k < |atts| :: names[k] == StoredName(base, atts[k].name)
  {
    seq(|atts|, k requires 0 <= k < |atts| => StoredName(base, atts[k].name))
  }

  /** Attachment files of one mailbox are told apart by their names. */
  lemma AttachmentPathInjective(em: string, base: string, a: string, b: string)
    requires AttachmentPath(em, base, a) == AttachmentPath(em, base, b)
    ensures a == b
  {
    var prefix := AttachmentDir(em) + "/" + base + "-";
    assert AttachmentPath(em, base, a) == prefix + a;
    assert AttachmentPath(em, base, b) == prefix + b;
    assert a == (prefix + a)[|prefix|..];
    assert b == (prefix + b)[|prefix|..];
  }

  /** A record never lands on an attachment file of the same mailbox, as
      long as the token does not start with an `a`. */
  lemma RecordPathNotAttachment(em: string, base: string, name: string)
    requires base != [] && base[0] != 'a'
    ensures RecordPath(em, base) != AttachmentPath(em, base, name)
  {
    var prefix := MailboxPath(em) + "/";
    assert RecordPath(em, base) == prefix + (base + ".json");
    assert AttachmentPath(em, base, name) == prefix + ("attachments/" + base + "-" + name);
    assert RecordPath(em, base)[|prefix|] == base[0];
    assert AttachmentPath(em, base, name)[|prefix|] == 'a';
  }

  /** Different mailboxes have different record paths for one token. */
  lemma RecordPathInjective(a: string, b: string, base: string)
    requires RecordPath(a, base) == RecordPath(b, base)
    ensures a == b
  {
    var tail := "/" + base + ".json";
    assert RecordPath(a, base) == DataRoot + a + tail;
    assert RecordPath(b, base) == DataRoot + b + tail;
    assert a == (DataRoot + a + tail)[|DataRoot|..|DataRoot| + |a|];
    assert b == (DataRoot + b + tail)[|DataRoot|..|DataRoot| + |b|];
  }

  /** With a token and an attachment name free of `/`, no record lands on
      an attachment file of any mailbox: the record's last path component
      is `<base>.json`, an attachment's is `<base>-<name>`. */
  lemma RecordPathNotAnyAttachment(em: string, em': string, base: string, name: string)
    requires '/' !in base && '/' !in name
    ensures RecordPath(em, base) != AttachmentPath(em', base, name)
  {
    var r, a := RecordPath(em, base), AttachmentPath(em', base, name);
    var rTail, aTail := base + ".json", base + "-" + name;
    assert r == (DataRoot + em + "/") + rTail;
    assert a == (AttachmentDir(em') + "/") + aTail;
    assert forall i | 0 <= i < |rTail| :: rTail[i] != '/';
    assert forall i | 0 <= i < |aTail| :: aTail[i] != '/';
    if |r| == |a| {
      var n := |name|;
      if n == 4 {
        assert r[|r| - 5] == rTail[|base|] == '.';
        assert a[|a| - 5] == aTail[|base|] == '-';
      } else if n < 4 {
        var i := |a| - |aTail| - 1;
        assert a[i] == '/';
        assert r[i] == rTail[i - (|r| - |rTail|)];
      } else {
        var i := |r| - |rTail| - 1;
        assert r[i] == '/';
        assert a[i] == aTail[i - (|a| - |aTail|)];
      }
    }
  }

  // ---------------------------------------------------------------------
  // The mutable tree

  class DataDir {
    var files: map<Path, Entry>
    var dirs: set<Path>

    constructor (files: map<Path, Entry>, dirs: set<Path>)
      ensures this.files == files && this.dirs == dirs
    {
      this.files := files;
      this.dirs := dirs;
    }

    function State(): Tree
      reads this
    {
      Tree(files, dirs)
    }

    /** `os.mkdir(p, 0o755)` */
    method MakeDir(p: Path)
      modifies this
      ensures dirs == old(dirs) + {p}
      ensures files == old(files)
    {
      dirs := dirs + {p};
    }

    /** `open(p, ...)`, `write`, `close`: creates or truncates the file. */
    method WriteFile(p: Path, content: FileContent, mtime: real)
      modifies this
      ensures files == old(files)[p := Entry(content, mtime)]
      ensures dirs == old(dirs)
    {
      files := files[p := Entry(content, mtime)];
    }

    /** `os.remove(p)` */
    method Remove(p: Path)
      requires p in files
      modifies this
      ensures files == old(files) - {p}
      ensures dirs == old(dirs)
    {
      files := files - {p};
    }
  }

  // ---------------------------------------------------------------------
  // What one message does to the tree

  /** The attachment loop's writes for one mailbox, in order: a later
      attachment with the same name overwrites an earlier one. */
  function WriteAttachments(files: map<Path, Entry>, em: string, base: string,
                            atts: seq<Attachment>, mtime: real): map<Path, Entry>
    decreases |atts|
  {
    if atts == [] then files
    else
      var a := atts[|atts| - 1];
      WriteAttachments(files, em, base, atts[..|atts| - 1], mtime)
        [AttachmentPath(em, base, a.name) := Entry(Blob(a.content), mtime)]
  }

  /** The content of the last attachment called `name`. */
  function LastNamed(atts: seq<Attachment>, name: string): Bytes
    requires exists k | 0 <= k < |atts| :: atts[k].name == name
    decreases |atts|
  {
    if atts[|atts| - 1].name == name then atts[|atts| - 1].content
    else
      var init := atts[..|atts| - 1];
      assert exists k | 0 <= k < |init| :: init[k].name == name by {
        var k :| 0 <= k < |atts| && atts[k].name == name;
        assert init[k] == atts[k];
      }
      LastNamed(init, name)
  }

  /** The record of the n-th delivered recipient: the shared attachment
      list has grown by one round of names per recipient so far. */
  function RecordFor(template: StoredRecord, names: seq<string>, n: nat): StoredRecord {
    template.(parsed := template.parsed.(attachments := Repeat(names, n)))
  }

  /** One delivered recipient: its mailbox directory, `attachments/` when
      there is something to put there, the attachment files and the record. */
  function StoreOne(t: Tree, em: string, base: string, atts: seq<Attachment>,
                    record: StoredRecord, mtime: real): Tree
  {
    var dirs := t.dirs + {MailboxPath(em)} + (if |atts| > 0 then {AttachmentDir(em)} else {});
    var files := WriteAttachments(t.files, em, base, atts, mtime);
    Tree(files[RecordPath(em, base) := Entry(Json(record), mtime)], dirs)
  }

  /** The recipient loop over the delivered mailboxes, in order. */
  function StoreAll(t: Tree, mailboxes: seq<string>, base: string, atts: seq<Attachment>,
                    template: StoredRecord, mtime: real): Tree
    decreases |mailboxes|
  {
    if mailboxes == [] then t
    else
      var n := |mailboxes|;
      StoreOne(StoreAll(t, mailboxes[..n - 1], base, atts, template, mtime),
               mailboxes[n - 1], base, atts, RecordFor(template, StoredNames(base, atts), n), mtime)
  }

  predicate IsAttachmentPath(p: Path, em: string, base: string, atts: seq<Attachment>) {
    exists k | 0 <= k < |atts| :: p == AttachmentPath(em, base, atts[k].name)
  }

  /** The paths the recipient loop writes. */
  predicate Written(p: Path, mailboxes: seq<string>, base: string, atts: seq<Attachment>) {
    exists j | 0 <= j < |mailboxes| ::
      p == RecordPath(mailboxes[j], base) || IsAttachmentPath(p, mailboxes[j], base, atts)
  }

  // ---------------------------------------------------------------------
  // Properties of the attachment loop

  /** Paths other than this mailbox's attachment files are left alone. */
  lemma {:induction false} WriteAttachmentsFrame(files: map<Path, Entry>, em: string, base: string,
                                                 atts: seq<Attachment>, mtime: real, p: Path)
    requires !IsAttachmentPath(p, em, base, atts)
    ensures var r := WriteAttachments(files, em, base, atts, mtime);
      (p in r <==> p in files) && (p in files ==> r[p] == files[p])
    decreases |atts|
  {
    if atts != [] {
      var init := atts[..|atts| - 1];
      assert !IsAttachmentPath(p, em, base, init);
      WriteAttachmentsFrame(files, em, base, init, mtime, p);
      assert p != AttachmentPath(em, base, atts[|atts| - 1].name);
    }
  }

  /** Each attachment's file holds the content of the last attachment with
      its name, stamped with the handling time. */
  lemma {:induction false} WriteAttachmentsLast(files: map<Path, Entry>, em: string, base: string,
                                                atts: seq<Attachment>, mtime: real, k: nat)
    requires k < |atts|
    ensures var r := WriteAttachments(files, em, base, atts, mtime);
      && AttachmentPath(em, base, atts[k].name) in r
      && r[AttachmentPath(em, base, atts[k].name)] == Entry(Blob(LastNamed(atts, atts[k].name)), mtime)
    decreases |atts|
  {
    var name := atts[k].name;
    var last := atts[|atts| - 1];
    var init := atts[..|atts| - 1];
    if last.name != name {
      assert init[k] == atts[k];
      WriteAttachmentsLast(files, em, base, init, mtime, k);
      if AttachmentPath(em, base, last.name) == AttachmentPath(em, base, name) {
        AttachmentPathInjective(em, base, last.name, name);
      }
    }
  }

  /** The attachment loop writes exactly its own attachment files. */
  lemma {:induction false} WriteAttachmentsKeys(files: map<Path, Entry>, em: string, base: string,
                                                atts: seq<Attachment>, mtime: real, p: Path)
    ensures p in WriteAttachments(files, em, base, atts, mtime) <==>
      p in files || IsAttachmentPath(p, em, base, atts)
    decreases |atts|
  {
    if atts != [] {
      var n := |atts|;
      var init := atts[..n - 1];
      WriteAttachmentsKeys(files, em, base, init, mtime, p);
      if IsAttachmentPath(p, em, base, atts) {
        var k :| 0 <= k < n && p == AttachmentPath(em, base, atts[k].name);
        if k < n - 1 {
          assert init[k] == atts[k];
          assert IsAttachmentPath(p, em, base, init);
        }
      }
      if IsAttachmentPath(p, em, base, init) {
        var k :| 0 <= k < n - 1 && p == AttachmentPath(em, base, init[k].name);
        assert init[k] == atts[k];
      }
    }
  }

  // ---------------------------------------------------------------------
  // Properties of one delivery

  /** After one delivery the mailbox's record is the given record, each
      attachment file holds the last attachment with its name, and the
      mailbox and (with attachments) `attachments/` directories exist. */
  lemma StoreOneEffect(t: Tree, em: string, base: string, atts: seq<Attachment>,
                       record: StoredRecord, mtime: real)
    requires base != [] && base[0] != 'a'
    ensures var r := StoreOne(t, em, base, atts, record, mtime);
      && RecordPath(em, base) in r.files
      && r.files[RecordPath(em, base)] == Entry(Json(record), mtime)
      && (forall k | 0 <= k < |atts| ::
            AttachmentPath(em, base, atts[k].name) in r.files
            && r.files[AttachmentPath(em, base, atts[k].name)] == Entry(Blob(LastNamed(atts, atts[k].name)), mtime))
      && r.dirs == t.dirs + {MailboxPath(em)} + (if |atts| > 0 then {AttachmentDir(em)} else {})
  {
    forall k | 0 <= k < |atts|
      ensures var r := StoreOne(t, em, base, atts, record, mtime);
        && AttachmentPath(em, base, atts[k].name) in r.files
        && r.files[AttachmentPath(em, base, atts[k].name)] == Entry(Blob(LastNamed(atts, atts[k].name)), mtime)
    {
      WriteAttachmentsLast(t.files, em, base, atts, mtime, k);
      RecordPathNotAttachment(em, base, atts[k].name);
    }
  }

  // ---------------------------------------------------------------------
  // Properties of the whole recipient loop

  /** Nothing delivered, nothing changed. */
  lemma StoreNothing(t: Tree, base: string, atts: seq<Attachment>, template: StoredRecord, mtime: real)
    ensures StoreAll(t, [], base, atts, template, mtime) == t
  {
  }

  /** One more delivery adds its mailbox directory and, with attachments,
      its `attachments/` directory. */
  lemma StoreAllDirsSnoc(t: Tree, mailboxes: seq<string>, base: string,
                         atts: seq<Attachment>, template: StoredRecord, mtime: real)
    requires mailboxes != []
    ensures var last := mailboxes[|mailboxes| - 1];
      StoreAll(t, mailboxes, base, atts, template, mtime).dirs ==
        StoreAll(t, mailboxes[..|mailboxes| - 1], base, atts, template, mtime).dirs
        + {MailboxPath(last)} + (if |atts| > 0 then {AttachmentDir(last)} else {})
  {
  }

  /** A directory the loop creates for one of the mailboxes. */
  predicate CreatedDir(d: Path, mailboxes: seq<string>, atts: seq<Attachment>) {
    exists em | em in mailboxes :: d == MailboxPath(em) || (|atts| > 0 && d == AttachmentDir(em))
  }

  /** The loop creates exactly the mailbox directories of the delivered
      recipients, and their `attachments/` directories only when the
      message has attachments. */
  lemma {:induction false} StoreAllDirs(t: Tree, mailboxes: seq<string>, base: string,
                                        atts: seq<Attachment>, template: StoredRecord, mtime: real)
    ensures forall d :: d in StoreAll(t, mailboxes, base, atts, template, mtime).dirs <==>
      d in t.dirs || CreatedDir(d, mailboxes, atts)
    decreases |mailboxes|
  {
    if mailboxes != [] {
      var n := |mailboxes|;
      var init, last := mailboxes[..n - 1], mailboxes[n - 1];
      StoreAllDirs(t, init, base, atts, template, mtime);
      StoreAllDirsSnoc(t, mailboxes, base, atts, template, mtime);
      assert forall em :: em in mailboxes <==> em in init || em == last by {
        assert mailboxes == init + [last];
      }
      forall d ensures CreatedDir(d, mailboxes, atts) <==>
        CreatedDir(d, init, atts) || d == MailboxPath(last) || (|atts| > 0 && d == AttachmentDir(last))
      {
        if CreatedDir(d, mailboxes, atts) {
          var em :| em in mailboxes && (d == MailboxPath(em) || (|atts| > 0 && d == AttachmentDir(em)));
          if em != last {
            assert CreatedDir(d, init, atts);
          }
        }
        if CreatedDir(d, init, atts) {
          var em :| em in init && (d == MailboxPath(em) || (|atts| > 0 && d == AttachmentDir(em)));
          assert em in mailboxes;
        }
        if d == MailboxPath(last) || (|atts| > 0 && d == AttachmentDir(last)) {
          assert last in mailboxes;
        }
      }
    }
  }

  /** Every path the loop does not write keeps its old entry, or stays
      absent. */
  lemma {:induction false} StoreAllFrame(t: Tree, mailboxes: seq<string>, base: string,
                                         atts: seq<Attachment>, template: StoredRecord, mtime: real, p: Path)
    requires !Written(p, mailboxes, base, atts)
    ensures var r := StoreAll(t, mailboxes, base, atts, template, mtime);
      (p in r.files <==> p in t.files) && (p in t.files ==> r.files[p] == t.files[p])
    decreases |mailboxes|
  {
    if mailboxes != [] {
      var n := |mailboxes|;
      var init := mailboxes[..n - 1];
      assert !Written(p, init, base, atts);
      StoreAllFrame(t, init, base, atts, template, mtime, p);
      var em := mailboxes[n - 1];
      assert p != RecordPath(em, base);
      assert !IsAttachmentPath(p, em, base, atts);
      WriteAttachmentsFrame(StoreAll(t, init, base, atts, template, mtime).files, em, base, atts, mtime, p);
    }
  }

  lemma WrittenSnoc(p: Path, mailboxes: seq<string>, base: string, atts: seq<Attachment>)
    requires mailboxes != []
    ensures var init, em := mailboxes[..|mailboxes| - 1], mailboxes[|mailboxes| - 1];
      Written(p, mailboxes, base, atts) <==>
        Written(p, init, base, atts) || p == RecordPath(em, base) || IsAttachmentPath(p, em, base, atts)
  {
    var n := |mailboxes|;
    var init := mailboxes[..n - 1];
    assert forall j | 0 <= j < n - 1 :: init[j] == mailboxes[j];
  }

  /** The loop's new files are exactly the records and attachment files of
      the delivered recipients. */
  lemma {:induction false} StoreAllKeys(t: Tree, mailboxes: seq<string>, base: string,
                                        atts: seq<Attachment>, template: StoredRecord, mtime: real, p: Path)
    ensures p in StoreAll(t, mailboxes, base, atts, template, mtime).files <==>
      p in t.files || Written(p, mailboxes, base, atts)
    decreases |mailboxes|
  {
    if mailboxes != [] {
      var n := |mailboxes|;
      var init := mailboxes[..n - 1];
      var em := mailboxes[n - 1];
      StoreAllKeys(t, init, base, atts, template, mtime, p);
      WriteAttachmentsKeys(StoreAll(t, init, base, atts, template, mtime).files, em, base, atts, mtime, p);
      WrittenSnoc(p, mailboxes, base, atts);
    }
  }

  /** The record written for the i-th delivered recipient (counting from 1)
      carries the full original recipient list and lists i rounds of
      attachment names, i·N names for N attachments, because the list it
      reports is shared by all recipients of the message. */
  lemma RecordOfNthRecipient(t: Tree, mailboxes: seq<string>, base: string,
                             atts: seq<Attachment>, template: StoredRecord, mtime: real, i: nat)
    requires 1 <= i <= |mailboxes|
    ensures var r := StoreAll(t, mailboxes[..i], base, atts, template, mtime);
      var path := RecordPath(mailboxes[i - 1], base);
      && path in r.files
      && r.files[path].mtime == mtime
      && r.files[path].content.Json?
      && r.files[path].content.record.rcpts == template.rcpts
      && r.files[path].content.record.parsed.attachments == Repeat(StoredNames(base, atts), i)
      && |r.files[path].content.record.parsed.attachments| == i * |atts|
  {
    var prefix := mailboxes[..i];
    assert prefix[..i - 1] == mailboxes[..i - 1];
    assert prefix[i - 1] == mailboxes[i - 1];
  }

  /** When the loop is over, the last delivered recipient's record lists
      every round of names: K·N of them for K recipients. */
  lemma LastRecord(t: Tree, mailboxes: seq<string>, base: string,
                   atts: seq<Attachment>, template: StoredRecord, mtime: real)
    requires mailboxes != []
    ensures var r := StoreAll(t, mailboxes, base, atts, template, mtime);
      var path := RecordPath(mailboxes[|mailboxes| - 1], base);
      && path in r.files
      && r.files[path] == Entry(Json(RecordFor(template, StoredNames(base, atts), |mailboxes|)), mtime)
      && |r.files[path].content.record.parsed.attachments| == |mailboxes| * |atts|
  {
    RecordOfNthRecipient(t, mailboxes, base, atts, template, mtime, |mailboxes|);
    assert mailboxes[..|mailboxes|] == mailboxes;
  }

  /** When the loop is over, every path it wrote is present, and every
      record among them carries the message's full recipient list: reading
      back any mailbox's `<base>.json` gives all of `rcpttos`. */
  lemma {:induction false} WrittenRecordsCarryRecipients(t: Tree, mailboxes: seq<string>, base: string,
                                                         atts: seq<Attachment>, template: StoredRecord,
                                                         mtime: real, p: Path)
    requires Written(p, mailboxes, base, atts)
    ensures var r := StoreAll(t, mailboxes, base, atts, template, mtime);
      && p in r.files
      && r.files[p].mtime == mtime
      && (r.files[p].content.Json? ==> r.files[p].content.record.rcpts == template.rcpts)
    decreases |mailboxes|
  {
    var n := |mailboxes|;
    var init, em := mailboxes[..n - 1], mailboxes[n - 1];
    var before := StoreAll(t, init, base, atts, template, mtime);
    WrittenSnoc(p, mailboxes, base, atts);
    if p != RecordPath(em, base) {
      if IsAttachmentPath(p, em, base, atts) {
        var k :| 0 <= k < |atts| && p == AttachmentPath(em, base, atts[k].name);
        WriteAttachmentsLast(before.files, em, base, atts, mtime, k);
      } else {
        WrittenRecordsCarryRecipients(t, init, base, atts, template, mtime, p);
        WriteAttachmentsFrame(before.files, em, base, atts, mtime, p);
      }
    }
  }

  /** When the loop is over, the record of a mailbox that is not delivered
      to again later is the one its own delivery wrote: the j-th delivered
      recipient's record lists j + 1 rounds of attachment names. This needs
      a token and attachment names without `/`, so that no later write
      lands on it. */
  lemma {:induction false} FinalRecord(t: Tree, mailboxes: seq<string>, base: string,
                                       atts: seq<Attachment>, template: StoredRecord, mtime: real, j: nat)
    requires j < |mailboxes|
    requires forall l | j < l < |mailboxes| :: mailboxes[l] != mailboxes[j]
    requires '/' !in base && forall k | 0 <= k < |atts| :: '/' !in atts[k].name
    ensures var r := StoreAll(t, mailboxes, base, atts, template, mtime);
      var path := RecordPath(mailboxes[j], base);
      && path in r.files
      && r.files[path] == Entry(Json(RecordFor(template, StoredNames(base, atts), j + 1)), mtime)
    decreases |mailboxes|
  {
    var n := |mailboxes|;
    var init, em := mailboxes[..n - 1], mailboxes[n - 1];
    var path := RecordPath(mailboxes[j], base);
    if j < n - 1 {
      assert init[j] == mailboxes[j];
      FinalRecord(t, init, base, atts, template, mtime, j);
      var before := StoreAll(t, init, base, atts, template, mtime);
      if path == RecordPath(em, base) {
        RecordPathInjective(mailboxes[j], em, base);
      }
      assert !IsAttachmentPath(path, em, base, atts) by {
        if IsAttachmentPath(path, em, base, atts) {
          var k :| 0 <= k < |atts| && path == AttachmentPath(em, base, atts[k].name);
          RecordPathNotAnyAttachment(mailboxes[j], em, base, atts[k].name);
        }
      }
      WriteAttachmentsFrame(before.files, em, base, atts, mtime, path);
    }
  }

  /** A recipient delivered twice (say `A@x.com` and `a@x.com`) has one
      record path: the later delivery overwrites the earlier record, so the
      mailbox ends up with the later record, which lists more names when the
      message has attachments. */
  lemma DuplicateMailboxRecord(t: Tree, mailboxes: seq<string>, base: string,
                               atts: seq<Attachment>, template: StoredRecord, mtime: real, j: nat, l: nat)
    requires j < l < |mailboxes| && mailboxes[j] == mailboxes[l]
    requires forall m | l < m < |mailboxes| :: mailboxes[m] != mailboxes[l]
    requires '/' !in base && forall k | 0 <= k < |atts| :: '/' !in atts[k].name
    ensures var r := StoreAll(t, mailboxes, base, atts, template, mtime);
      var path := RecordPath(mailboxes[j], base);
      && path in r.files
      && r.files[path] == Entry(Json(RecordFor(template, StoredNames(base, atts), l + 1)), mtime)
      && (|atts| > 0 ==> r.files[path] != Entry(Json(RecordFor(template, StoredNames(base, atts), j + 1)), mtime))
  {
    FinalRecord(t, mailboxes, base, atts, template, mtime, l);
    var names := StoredNames(base, atts);
    if |atts| > 0 {
      assert |Repeat(names, l + 1)| != |Repeat(names, j + 1)| by {
        assert |Repeat(names, l + 1)| == (l + 1) * |names|;
        assert |Repeat(names, j + 1)| == (j + 1) * |names|;
      }
    }
  }

  /** Every name a record lists is `<base>-<name>` of one of the message's
      attachments. */
  lemma ListedNamesAreStoredNames(template: StoredRecord, base: string, atts: seq<Attachment>, n: nat, x: string)
    requires x in RecordFor(template, StoredNames(base, atts), n).parsed.attachments
    ensures exists k | 0 <= k < |atts| :: x == StoredName(base, atts[k].name)
  {
    var names := StoredNames(base, atts);
    assert x in names;
    var k :| 0 <= k < |names| && names[k] == x;
  }
}
