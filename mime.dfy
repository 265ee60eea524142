/** Message decoding in `TrashmailHandler.handle_DATA`: the Subject is
    assembled from its decoded header fragments, and the body walk sorts the
    leaf parts into plain-text bodies, HTML bodies and attachments.

    The `email` library is not modelled: the fragments `decode_header`
    returns and the parts `msg.walk()` yields are inputs, and character-set
    decoding is a function passed in. */
module Mime {
  import opened Common

  // ---------------------------------------------------------------------
  // Subject

  /** What `decode_header` hands back as the first item of a pair: a `str`
      for a header without encoded words, `bytes` otherwise. */
  datatype Chunk = Text(text: string) | Encoded(bytes: Bytes)

  datatype Fragment = Fragment(chunk: Chunk, charset: Option<string>)

  /** `bytes.decode(charset)`: `None` when it raises (an unknown charset,
      undecodable bytes). */
  type Codec = (string, Bytes) -> Option<string>

  /** One turn of the subject loop, `None` where it raises: `str` has no
      `decode`, and `str += bytes` is a type error. */
  function DecodeFragment(f: Fragment, codec: Codec): Option<string> {
    match f.charset
    case Some(cs) => if f.chunk.Encoded? then codec(cs, f.chunk.bytes) else None
    case None => if f.chunk.Text? then Some(f.chunk.text) else None
  }

  /** The subject after the loop, `None` when some fragment fails. */
  function SubjectOf(frags: seq<Fragment>, codec: Codec): Option<string>
    decreases |frags|
  {
    if frags == [] then Some("")
    else
      match SubjectOf(frags[..|frags| - 1], codec)
      case None => None
      case Some(prefix) =>
        match DecodeFragment(frags[|frags| - 1], codec)
        case None => None
        case Some(s) => Some(prefix + s)
  }

  /** The subject loop: appends each decoded fragment and gives up at the
      first one that fails. */
  method AssembleSubject(frags: seq<Fragment>, codec: Codec) returns (subject: Option<string>)
    ensures subject == SubjectOf(frags, codec)
    ensures subject.None? <==>
      exists i | 0 <= i < |frags| :: DecodeFragment(frags[i], codec).None?
  {
    var acc := "";
    for i := 0 to |frags|
      invariant SubjectOf(frags[..i], codec) == Some(acc)
    {
      assert frags[..i + 1][..i] == frags[..i];
      var f := DecodeFragment(frags[i], codec);
      if f.None? {
        assert SubjectOf(frags[..i + 1], codec).None?;
        SubjectPrefixFails(frags, i + 1, codec);
        SubjectFailsIff(frags, codec);
        return None;
      }
      acc := acc + f.value;
    }
    assert frags[..|frags|] == frags;
    SubjectFailsIff(frags, codec);
    subject := Some(acc);
  }

  /** Once a prefix fails, the whole subject fails. */
  lemma {:induction false} SubjectPrefixFails(frags: seq<Fragment>, n: nat, codec: Codec)
    requires n <= |frags|
    requires SubjectOf(frags[..n], codec).None?
    ensures SubjectOf(frags, codec).None?
    decreases |frags| - n
  {
    if n < |frags| {
      assert frags[..n + 1][..n] == frags[..n];
      SubjectPrefixFails(frags, n + 1, codec);
    } else {
      assert frags[..n] == frags;
    }
  }

  /** The subject fails exactly when one of its fragments fails to decode. */
  lemma {:induction false} SubjectFailsIff(frags: seq<Fragment>, codec: Codec)
    ensures SubjectOf(frags, codec).None? <==>
      exists i | 0 <= i < |frags| :: DecodeFragment(frags[i], codec).None?
    decreases |frags|
  {
    if frags != [] {
      var init := frags[..|frags| - 1];
      SubjectFailsIff(init, codec);
      assert forall i | 0 <= i < |init| :: init[i] == frags[i];
    }
  }

  /** Subjects concatenate: the subject of two fragment runs is the first
      run's subject followed by the second's, and fails if either fails. */
  lemma {:induction false} SubjectConcat(a: seq<Fragment>, b: seq<Fragment>, codec: Codec)
    ensures SubjectOf(a + b, codec) ==
      if SubjectOf(a, codec).Some? && SubjectOf(b, codec).Some?
      then Some(SubjectOf(a, codec).value + SubjectOf(b, codec).value)
      else None
    decreases |b|
  {
    if b == [] {
      assert a + b == a;
      if SubjectOf(a, codec).Some? {
        assert SubjectOf(a, codec).value + "" == SubjectOf(a, codec).value;
      }
    } else {
      var b' := b[..|b| - 1];
      assert (a + b)[..|a + b| - 1] == a + b';
      assert (a + b)[|a + b| - 1] == b[|b| - 1];
      SubjectConcat(a, b', codec);
      if SubjectOf(a, codec).Some? && SubjectOf(b', codec).Some? {
        var x, y := SubjectOf(a, codec).value, SubjectOf(b', codec).value;
        match DecodeFragment(b[|b| - 1], codec)
        case None =>
        case Some(s) =>
          assert x + y + s == x + (y + s);
      }
    }
  }

  /** A header in one declared character set decodes to exactly what that
      character set gives for its bytes. */
  lemma SingleCharsetSubject(bytes: Bytes, charset: string, codec: Codec)
    ensures SubjectOf([Fragment(Encoded(bytes), Some(charset))], codec) == codec(charset, bytes)
  {
    var frags := [Fragment(Encoded(bytes), Some(charset))];
    assert frags[..0] == [];
    match codec(charset, bytes)
    case None =>
    case Some(s) => assert "" + s == s;
  }

  /** A header without encoded words is taken as it is. */
  lemma PlainSubject(text: string, codec: Codec)
    ensures SubjectOf([Fragment(Text(text), None)], codec) == Some(text)
  {
    var frags := [Fragment(Text(text), None)];
    assert frags[..0] == [];
    assert "" + text == text;
  }

  /** A header that mixes plain text with encoded words yields its plain
      text as `bytes` without a charset; appending those to the `str`
      subject raises, so the whole subject fails. */
  lemma MixedHeaderFails(frags: seq<Fragment>, i: nat, codec: Codec)
    requires i < |frags|
    requires frags[i].chunk.Encoded? && frags[i].charset.None?
    ensures SubjectOf(frags, codec).None?
  {
    SubjectFailsIff(frags, codec);
  }

  // ---------------------------------------------------------------------
  // Body parts

  /** A leaf or container part as `msg.walk()` yields it: its content type
      (`get_content_type()`), its Content-Disposition header, its file name
      (`get_filename()`) and its decoded payload (`get_payload(decode=True)`). */
  datatype Part = Part(
    contentType: string,
    disposition: Option<string>,
    filename: Option<string>,
    payload: Option<Bytes>)

  datatype Attachment = Attachment(name: string, content: Bytes)

  /** `get_content_maintype()`: the content type up to its `/`. */
  function MainType(contentType: string): string {
    if '/' in contentType then contentType[..IndexOf(contentType, '/')] else contentType
  }

  /** Which branch of the walk a part takes. */
  datatype Kind = Container | PlainText | Html | Other

  function KindOf(p: Part): Kind {
    if MainType(p.contentType) == "multipart" then Container
    else if p.contentType == "text/plain" && p.disposition.None? then PlainText
    else if p.contentType == "text/html" then Html
    else Other
  }

  /** The three outputs of the walk. */
  datatype Slot = BodySlot | HtmlSlot | AttachmentSlot

  /** The part contributes to the given output. */
  predicate Fills(p: Part, slot: Slot) {
    p.payload.Some? &&
    match slot
    case BodySlot => KindOf(p) == PlainText
    case HtmlSlot => KindOf(p) == Html
    case AttachmentSlot => KindOf(p) == Other
  }

  /** A text or HTML part without a payload: `.strip()` on `None` raises. */
  predicate BreaksWalk(p: Part) {
    (KindOf(p) == PlainText || KindOf(p) == Html) && p.payload.None?
  }

  predicate WalkFails(parts: seq<Part>) {
    exists i | 0 <= i < |parts| :: BreaksWalk(parts[i])
  }

  /** `bytes.isspace()` for one byte: space, tab, newline, vertical tab,
      form feed, carriage return. */
  predicate IsSpaceByte(b: byte) {
    b == 32 || 9 <= b <= 13
  }

  /** How many whitespace bytes `bytes.strip()` removes at the front. */
  function LeadingSpaces(b: Bytes): (n: nat)
    ensures n <= |b|
    ensures forall i | 0 <= i < n :: IsSpaceByte(b[i])
    ensures n < |b| ==> !IsSpaceByte(b[n])
  {
    if b == [] || !IsSpaceByte(b[0]) then 0 else 1 + LeadingSpaces(b[1..])
  }

  /** How many whitespace bytes `bytes.strip()` removes at the back. */
  function TrailingSpaces(b: Bytes): (n: nat)
    ensures n <= |b|
    ensures forall i | |b| - n <= i < |b| :: IsSpaceByte(b[i])
    ensures n < |b| ==> !IsSpaceByte(b[|b| - n - 1])
  {
    if b == [] || !IsSpaceByte(b[|b| - 1]) then 0 else 1 + TrailingSpaces(b[..|b| - 1])
  }

  /** `bytes.strip()`: the payload without surrounding ASCII whitespace. */
  function Strip(b: Bytes): (r: Bytes)
    ensures r == [] || (!IsSpaceByte(r[0]) && !IsSpaceByte(r[|r| - 1]))
    ensures LeadingSpaces(b) + |r| <= |b|
    ensures r == b[LeadingSpaces(b)..LeadingSpaces(b) + |r|]
    ensures forall i | LeadingSpaces(b) + |r| <= i < |b| :: IsSpaceByte(b[i])
  {
    var rest := b[LeadingSpaces(b)..];
    rest[..|rest| - TrailingSpaces(rest)]
  }

  /** The text a body part contributes: its payload stripped and decoded as
      UTF-8 with replacement, which never fails. */
  function TextOf(p: Part, utf8: Bytes -> string): string
    requires p.payload.Some?
  {
    utf8(Strip(p.payload.value))
  }

  /** An attachment entry: the part's file name, `untitled` when it has
      none, and its payload. */
  function AttachmentOf(p: Part): (a: Attachment)
    requires p.payload.Some?
  {
    Attachment(if p.filename.Some? then p.filename.value else "untitled", p.payload.value)
  }

  /** `text_parts` after the walk. */
  function TextParts(parts: seq<Part>, utf8: Bytes -> string): seq<string>
    decreases |parts|
  {
    if parts == [] then []
    else
      var p := parts[|parts| - 1];
      TextParts(parts[..|parts| - 1], utf8) + if Fills(p, BodySlot) then [TextOf(p, utf8)] else []
  }

  /** `html_parts` after the walk. */
  function HtmlParts(parts: seq<Part>, utf8: Bytes -> string): seq<string>
    decreases |parts|
  {
    if parts == [] then []
    else
      var p := parts[|parts| - 1];
      HtmlParts(parts[..|parts| - 1], utf8) + if Fills(p, HtmlSlot) then [TextOf(p, utf8)] else []
  }

  /** The values of the `attachments` dictionary after the walk, in key
      order `file0, file1, …`. */
  function Attachments(parts: seq<Part>): seq<Attachment>
    decreases |parts|
  {
    if parts == [] then []
    else
      var p := parts[|parts| - 1];
      Attachments(parts[..|parts| - 1]) + if Fills(p, AttachmentSlot) then [AttachmentOf(p)] else []
  }

  datatype Walk = Walk(texts: seq<string>, htmls: seq<string>, attachments: seq<Attachment>)

  /** The walk loop: skips containers, collects body texts, HTML texts and
      attachments, and raises at a text or HTML part with no payload. */
  method WalkParts(parts: seq<Part>, utf8: Bytes -> string) returns (r: Option<Walk>)
    ensures r.None? <==> WalkFails(parts)
    ensures r.Some? ==> r.value == Walk(TextParts(parts, utf8), HtmlParts(parts, utf8), Attachments(parts))
  {
    var texts, htmls, attachments := [], [], [];
    for i := 0 to |parts|
      invariant !WalkFails(parts[..i])
      invariant texts == TextParts(parts[..i], utf8)
      invariant htmls == HtmlParts(parts[..i], utf8)
      invariant attachments == Attachments(parts[..i])
    {
      var part := parts[i];
      WalkFailsStep(parts, i);
      WalkStep(parts, i, utf8);
      if MainType(part.contentType) == "multipart" {
        continue;
      }
      if part.contentType == "text/plain" && part.disposition == None {
        if part.payload.None? {
          assert BreaksWalk(parts[i]);
          return None;
        }
        texts := texts + [TextOf(part, utf8)];
      } else if part.contentType == "text/html" {
        if part.payload.None? {
          assert BreaksWalk(parts[i]);
          return None;
        }
        htmls := htmls + [TextOf(part, utf8)];
      } else {
        if part.payload.Some? {
          attachments := attachments + [AttachmentOf(part)];
        }
      }
    }
    assert parts[..|parts|] == parts;
    r := Some(Walk(texts, htmls, attachments));
  }

  /** One more part breaks the walk iff the walk so far broke or this part
      does. */
  lemma WalkFailsStep(parts: seq<Part>, i: nat)
    requires i < |parts|
    ensures WalkFails(parts[..i + 1]) <==> WalkFails(parts[..i]) || BreaksWalk(parts[i])
  {
    var next, prev := parts[..i + 1], parts[..i];
    if WalkFails(next) {
      var j :| 0 <= j < |next| && BreaksWalk(next[j]);
      if j < i {
        assert prev[j] == next[j];
        assert WalkFails(prev);
      } else {
        assert |next| == i + 1;
        assert j == i;
        assert next[i] == parts[i];
      }
    }
    if WalkFails(prev) {
      var j :| 0 <= j < |prev| && BreaksWalk(prev[j]);
      assert next[j] == prev[j];
      assert WalkFails(next);
    }
    if BreaksWalk(parts[i]) {
      assert next[i] == parts[i];
      assert WalkFails(next);
    }
  }

  /** What one more part does to the walk's outputs. */
  lemma WalkStep(parts: seq<Part>, i: nat, utf8: Bytes -> string)
    requires i < |parts|
    ensures TextParts(parts[..i + 1], utf8) ==
      TextParts(parts[..i], utf8) + if Fills(parts[i], BodySlot) then [TextOf(parts[i], utf8)] else []
    ensures HtmlParts(parts[..i + 1], utf8) ==
      HtmlParts(parts[..i], utf8) + if Fills(parts[i], HtmlSlot) then [TextOf(parts[i], utf8)] else []
    ensures Attachments(parts[..i + 1]) ==
      Attachments(parts[..i]) + if Fills(parts[i], AttachmentSlot) then [AttachmentOf(parts[i])] else []
  {
    var next := parts[..i + 1];
    assert next[..i] == parts[..i];
    assert next[i] == parts[i];
  }

  /** The walk positions of the parts that fill a slot, in walk order. */
  function Positions(parts: seq<Part>, slot: Slot): seq<nat>
    decreases |parts|
  {
    if parts == [] then []
    else
      Positions(parts[..|parts| - 1], slot)
      + if Fills(parts[|parts| - 1], slot) then [|parts| - 1] else []
  }

  lemma PositionsPrefix(parts: seq<Part>, slot: Slot)
    requires parts != []
    ensures Positions(parts, slot) ==
      Positions(parts[..|parts| - 1], slot) + if Fills(parts[|parts| - 1], slot) then [|parts| - 1] else []
  {
  }

  /** Each position is a part that fills the slot. */
  lemma {:induction false} PositionsFill(parts: seq<Part>, slot: Slot)
    ensures forall k | 0 <= k < |Positions(parts, slot)| ::
      Positions(parts, slot)[k] < |parts| && Fills(parts[Positions(parts, slot)[k]], slot)
    decreases |parts|
  {
    if parts != [] {
      var init := parts[..|parts| - 1];
      PositionsFill(init, slot);
      PositionsPrefix(parts, slot);
      var pos, prev := Positions(parts, slot), Positions(init, slot);
      forall k | 0 <= k < |pos| ensures pos[k] < |parts| && Fills(parts[pos[k]], slot) {
        if k < |prev| {
          assert pos[k] == prev[k];
          assert init[prev[k]] == parts[prev[k]];
        }
      }
    }
  }

  /** Positions are strictly increasing and below the length. */
  lemma {:induction false} PositionsIncreasing(parts: seq<Part>, slot: Slot)
    ensures forall k | 0 <= k < |Positions(parts, slot)| :: Positions(parts, slot)[k] < |parts|
    ensures forall k, l | 0 <= k < l < |Positions(parts, slot)| ::
      Positions(parts, slot)[k] < Positions(parts, slot)[l]
    decreases |parts|
  {
    if parts != [] {
      var init := parts[..|parts| - 1];
      PositionsIncreasing(init, slot);
      PositionsPrefix(parts, slot);
    }
  }

  /** Every part that fills the slot has its position listed. */
  lemma {:induction false} PositionsComplete(parts: seq<Part>, slot: Slot)
    ensures forall i | 0 <= i < |parts| && Fills(parts[i], slot) :: i in Positions(parts, slot)
    decreases |parts|
  {
    if parts != [] {
      var init := parts[..|parts| - 1];
      PositionsComplete(init, slot);
      PositionsPrefix(parts, slot);
      forall i | 0 <= i < |parts| && Fills(parts[i], slot) ensures i in Positions(parts, slot) {
        if i < |init| {
          assert init[i] == parts[i];
          assert i in Positions(init, slot);
        } else {
          assert i == |parts| - 1;
        }
      }
    }
  }

  /** The positions are exactly the parts that fill the slot, in walk
      order. */
  lemma PositionsExact(parts: seq<Part>, slot: Slot)
    ensures forall k | 0 <= k < |Positions(parts, slot)| ::
      Positions(parts, slot)[k] < |parts| && Fills(parts[Positions(parts, slot)[k]], slot)
    ensures forall k, l | 0 <= k < l < |Positions(parts, slot)| ::
      Positions(parts, slot)[k] < Positions(parts, slot)[l]
    ensures forall i | 0 <= i < |parts| && Fills(parts[i], slot) :: i in Positions(parts, slot)
  {
    PositionsFill(parts, slot);
    PositionsIncreasing(parts, slot);
    PositionsComplete(parts, slot);
  }

  /** Attachments keep walk order: the k-th attachment comes from the k-th
      part (in walk order) that is neither a container nor a body part and
      has a payload. */
  lemma {:induction false} AttachmentsInWalkOrder(parts: seq<Part>)
    ensures |Attachments(parts)| == |Positions(parts, AttachmentSlot)|
    ensures forall k | 0 <= k < |Attachments(parts)| ::
      Positions(parts, AttachmentSlot)[k] < |parts|
      && Fills(parts[Positions(parts, AttachmentSlot)[k]], AttachmentSlot)
      && Attachments(parts)[k] == AttachmentOf(parts[Positions(parts, AttachmentSlot)[k]])
    decreases |parts|
  {
    if parts != [] {
      var n := |parts|;
      var init, p := parts[..n - 1], parts[n - 1];
      AttachmentsInWalkOrder(init);
      PositionsPrefix(parts, AttachmentSlot);
      var out, prevOut := Attachments(parts), Attachments(init);
      var pos, prevPos := Positions(parts, AttachmentSlot), Positions(init, AttachmentSlot);
      forall k | 0 <= k < |out|
        ensures pos[k] < n && Fills(parts[pos[k]], AttachmentSlot) && out[k] == AttachmentOf(parts[pos[k]])
      {
        if k < |prevOut| {
          assert out[k] == prevOut[k] && pos[k] == prevPos[k];
          assert init[prevPos[k]] == parts[prevPos[k]];
        } else {
          assert pos[k] == n - 1;
        }
      }
    }
  }

  /** Plain-text bodies keep walk order in the same way. */
  lemma {:induction false} TextsInWalkOrder(parts: seq<Part>, utf8: Bytes -> string)
    ensures |TextParts(parts, utf8)| == |Positions(parts, BodySlot)|
    ensures forall k | 0 <= k < |TextParts(parts, utf8)| ::
      Positions(parts, BodySlot)[k] < |parts|
      && Fills(parts[Positions(parts, BodySlot)[k]], BodySlot)
      && TextParts(parts, utf8)[k] == TextOf(parts[Positions(parts, BodySlot)[k]], utf8)
    decreases |parts|
  {
    if parts != [] {
      var n := |parts|;
      var init, p := parts[..n - 1], parts[n - 1];
      TextsInWalkOrder(init, utf8);
      PositionsPrefix(parts, BodySlot);
      var out, prevOut := TextParts(parts, utf8), TextParts(init, utf8);
      var pos, prevPos := Positions(parts, BodySlot), Positions(init, BodySlot);
      forall k | 0 <= k < |out|
        ensures pos[k] < n && Fills(parts[pos[k]], BodySlot) && out[k] == TextOf(parts[pos[k]], utf8)
      {
        if k < |prevOut| {
          assert out[k] == prevOut[k] && pos[k] == prevPos[k];
          assert init[prevPos[k]] == parts[prevPos[k]];
        } else {
          assert pos[k] == n - 1;
        }
      }
    }
  }

  /** HTML bodies keep walk order in the same way. */
  lemma {:induction false} HtmlsInWalkOrder(parts: seq<Part>, utf8: Bytes -> string)
    ensures |HtmlParts(parts, utf8)| == |Positions(parts, HtmlSlot)|
    ensures forall k | 0 <= k < |HtmlParts(parts, utf8)| ::
      Positions(parts, HtmlSlot)[k] < |parts|
      && Fills(parts[Positions(parts, HtmlSlot)[k]], HtmlSlot)
      && HtmlParts(parts, utf8)[k] == TextOf(parts[Positions(parts, HtmlSlot)[k]], utf8)
    decreases |parts|
  {
    if parts != [] {
      var n := |parts|;
      var init, p := parts[..n - 1], parts[n - 1];
      HtmlsInWalkOrder(init, utf8);
      PositionsPrefix(parts, HtmlSlot);
      var out, prevOut := HtmlParts(parts, utf8), HtmlParts(init, utf8);
      var pos, prevPos := Positions(parts, HtmlSlot), Positions(init, HtmlSlot);
      forall k | 0 <= k < |out|
        ensures pos[k] < n && Fills(parts[pos[k]], HtmlSlot) && out[k] == TextOf(parts[pos[k]], utf8)
      {
        if k < |prevOut| {
          assert out[k] == prevOut[k] && pos[k] == prevPos[k];
          assert init[prevPos[k]] == parts[prevPos[k]];
        } else {
          assert pos[k] == n - 1;
        }
      }
    }
  }

  /** Every leaf with a payload lands in exactly one output: a part fills at
      most one slot, and a non-container part with a payload fills one. */
  lemma SlotsPartitionLeaves(p: Part)
    ensures !(Fills(p, BodySlot) && Fills(p, HtmlSlot))
    ensures !(Fills(p, BodySlot) && Fills(p, AttachmentSlot))
    ensures !(Fills(p, HtmlSlot) && Fills(p, AttachmentSlot))
    ensures KindOf(p) != Container && p.payload.Some? ==>
      Fills(p, BodySlot) || Fills(p, HtmlSlot) || Fills(p, AttachmentSlot)
  {
  }

  // ---------------------------------------------------------------------
  // Joining

  /** `'\n'.join(xs)` */
  function Join(xs: seq<string>): string
    decreases |xs|
  {
    if xs == [] then ""
    else if |xs| == 1 then xs[0]
    else Join(xs[..|xs| - 1]) + "\n" + xs[|xs| - 1]
  }

  /** `s.split('\n')` */
  function SplitLines(s: string): (r: seq<string>)
    ensures |r| > 0
    decreases |s|
  {
    if s == [] then [""]
    else
      var prev := SplitLines(s[..|s| - 1]);
      if s[|s| - 1] == '\n' then prev + [""]
      else prev[..|prev| - 1] + [prev[|prev| - 1] + [s[|s| - 1]]]
  }

  /** Appending text without a newline extends the last line. */
  lemma {:induction false} SplitLinesExtend(s: string, t: string)
    requires '\n' !in t
    ensures |SplitLines(s + t)| == |SplitLines(s)|
    ensures SplitLines(s + t) == SplitLines(s)[..|SplitLines(s)| - 1] + [SplitLines(s)[|SplitLines(s)| - 1] + t]
    decreases |t|
  {
    if t == [] {
      assert s + t == s;
      var lines := SplitLines(s);
      assert lines[|lines| - 1] + t == lines[|lines| - 1];
      assert lines[..|lines| - 1] + [lines[|lines| - 1]] == lines;
    } else {
      var t' := t[..|t| - 1];
      assert (s + t)[..|s + t| - 1] == s + t';
      assert (s + t)[|s + t| - 1] == t[|t| - 1];
      SplitLinesExtend(s, t');
      var lines := SplitLines(s);
      var last := lines[|lines| - 1];
      assert (last + t') + [t[|t| - 1]] == last + t;
    }
  }

  /** A newline at the end starts a new, empty line. */
  lemma SplitLinesNewline(s: string)
    ensures SplitLines(s + "\n") == SplitLines(s) + [""]
  {
    var a := s + "\n";
    assert a[..|a| - 1] == s;
  }

  /** Joining lines that hold no newline loses nothing: splitting the
      joined body at newlines gives the parts back. */
  lemma {:induction false} SplitJoin(xs: seq<string>)
    requires xs != []
    requires forall i | 0 <= i < |xs| :: '\n' !in xs[i]
    ensures SplitLines(Join(xs)) == xs
    decreases |xs|
  {
    var last := xs[|xs| - 1];
    if |xs| == 1 {
      SplitLinesExtend("", last);
      assert "" + last == last;
      assert [last] == xs;
    } else {
      var init := xs[..|xs| - 1];
      assert forall i | 0 <= i < |init| :: init[i] == xs[i];
      SplitJoin(init);
      var a := Join(init) + "\n";
      assert Join(xs) == a + last;
      SplitLinesNewline(Join(init));
      assert SplitLines(a) == init + [""];
      SplitLinesExtend(a, last);
      assert SplitLines(a + last) == init + ["" + last];
      assert "" + last == last;
      assert init + [last] == xs;
    }
  }

  // ---------------------------------------------------------------------
  // The whole decoding step

  /** The parsed message: a Subject header as `decode_header` splits it,
      and the parts of `msg.walk()`. A `None` subject stands for every case
      in which `decode_header` raises: the header is absent, or it holds a
      malformed encoded word (a base64 word of bad length, say). */
  datatype Message = Message(subject: Option<seq<Fragment>>, parts: seq<Part>)

  /** What the handler keeps of a decoded message. */
  datatype Content = Content(
    subject: string,
    body: string,
    htmlBody: string,
    attachments: seq<Attachment>)

  /** The outcome of the `try` block; `None` is the path to `500`. A `None`
      subject is `decode_header` raising, for a missing header or a
      malformed encoded word. */
  function Parse(msg: Message, codec: Codec, utf8: Bytes -> string): Option<Content> {
    if msg.subject.None? then None
    else
      var subject := SubjectOf(msg.subject.value, codec);
      if subject.None? || WalkFails(msg.parts) then None
      else Some(Content(
        subject.value,
        Join(TextParts(msg.parts, utf8)),
        Join(HtmlParts(msg.parts, utf8)),
        Attachments(msg.parts)))
  }

  /** The `try` block of the handler: the subject loop, then the walk. */
  method ParseMessage(msg: Message, codec: Codec, utf8: Bytes -> string) returns (r: Option<Content>)
    ensures r == Parse(msg, codec, utf8)
    ensures r.None? <==>
      || msg.subject.None?
      || (exists i | 0 <= i < |msg.subject.value| :: DecodeFragment(msg.subject.value[i], codec).None?)
      || (exists i | 0 <= i < |msg.parts| :: BreaksWalk(msg.parts[i]))
  {
    if msg.subject.None? {
      return None;
    }
    var subject := AssembleSubject(msg.subject.value, codec);
    if subject.None? {
      return None;
    }
    var walk := WalkParts(msg.parts, utf8);
    if walk.None? {
      return None;
    }
    var body := Join(walk.value.texts);
    var htmlBody := Join(walk.value.htmls);
    r := Some(Content(subject.value, body, htmlBody, walk.value.attachments));
  }
}
