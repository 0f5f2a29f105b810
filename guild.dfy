/** A guild's character records and what the `create`, `edit` and `delete`
    commands do to them (cogs/Characters.py:97-208), as functions of the
    guild's records, the command's arguments and the replies it reads. */
module Guild {
  import opened Text
  import opened Meta

  /** A Discord user id; it is only ever compared for equality. */
  type UserId = nat

  /** A member of a character's team. Teams are kept by other commands; these
      only carry them along. */
  datatype TeamMember = TeamMember(name: string, kind: string)

  /** A character sheet. `edit` addresses the fields by position: name 0,
      description 2, level 3, meta 5; owner and team take the two positions
      left, in an order these commands never depend on. */
  datatype Character = Character(
    name: string,
    owner: UserId,
    description: string,
    level: int,
    team: seq<TeamMember>,
    meta: map<string, string>)

  /** The guild's records, keyed by name: every key is non-empty and is the
      name of the record stored under it. */
  predicate Consistent(chars: map<string, Character>)
  {
    forall k :: k in chars ==> k != [] && chars[k].name == k
  }

  /** What a wait for the invoker's next message in the channel yields: the
      message's text, or a timeout. */
  datatype Msg = Reply(content: string) | Timeout

  // ---------------------------------------------------------------- create

  /** How the additional-info step of `create` ends. */
  datatype MetaEnd = MetaTimedOut | MetaCancelled | MetaDone(meta: map<string, string>)

  /** The additional-info step (lines 117-140): each reply is `cancel`, `skip`
      or a meta text; a text that does not parse asks again, keeping whatever
      pairs it had written into `meta`. Running out of replies is a timeout. */
  function MetaDialogue(replies: seq<Msg>, meta: map<string, string>): MetaEnd
    decreases |replies|
  {
    if replies == [] || replies[0].Timeout? then MetaTimedOut
    else
      var text := replies[0].content;
      if Lower(text) == "cancel" then MetaCancelled
      else if Lower(text) == "skip" then MetaDone(meta)
      else
        var written := ApplySegments(meta, Segments(text));
        if written.ok then MetaDone(written.meta) else MetaDialogue(replies[1..], written.meta)
  }

  datatype CreateOutcome = NameTaken | TimedOut | InvalidLevel | Cancelled | Created(character: Character)

  /** `create name` by `author`, reading its replies from `inbox`
      (lines 101-142): the name is checked before anything is asked; the
      first reply is the description, the second the level, the rest go to
      the additional-info step. */
  function CreateFlow(chars: map<string, Character>, name: string, author: UserId, inbox: seq<Msg>): (r: CreateOutcome)
    ensures r == NameTaken <==> name in chars
    ensures r.Created? <==>
      && name !in chars && |inbox| >= 2 && inbox[0].Reply? && inbox[1].Reply?
      && ParseInt(inbox[1].content).Some? && MetaDialogue(inbox[2..], map[]).MetaDone?
    ensures r.Created? ==>
      && |inbox| >= 2 && inbox[0] == Reply(r.character.description)
      && inbox[1].Reply? && ParseInt(inbox[1].content) == Some(r.character.level)
      && r.character.name == name && r.character.owner == author && r.character.team == []
      && MetaDialogue(inbox[2..], map[]) == MetaDone(r.character.meta)
  {
    if name in chars then NameTaken
    else if |inbox| < 1 || inbox[0].Timeout? then TimedOut
    else if |inbox| < 2 || inbox[1].Timeout? then TimedOut
    else match ParseInt(inbox[1].content)
      case None => InvalidLevel
      case Some(level) =>
        match MetaDialogue(inbox[2..], map[])
        case MetaTimedOut => TimedOut
        case MetaCancelled => Cancelled
        case MetaDone(meta) => Created(Character(name, author, inbox[0].content, level, [], meta))
  }

  /** The records once `create` has ended with `outcome`. */
  function AfterCreate(chars: map<string, Character>, outcome: CreateOutcome): map<string, Character>
  {
    if outcome.Created? then chars[outcome.character.name := outcome.character] else chars
  }

  // ---------------------------------------------------------------- delete

  datatype DeleteOutcome = DeleteNotFound | DeleteNotOwner | Deleted

  /** `delete name` by `requester` (lines 149-159): the outcome and the records after it. */
  function DeleteFlow(chars: map<string, Character>, name: string, requester: UserId): (DeleteOutcome, map<string, Character>)
  {
    if name !in chars then (DeleteNotFound, chars)
    else if chars[name].owner != requester then (DeleteNotOwner, chars)
    else (Deleted, chars - {name})
  }

  // ---------------------------------------------------------------- edit

  /** The note `edit` sends besides saving: none, the bad-format notice, or
      the "not a valid item" notice. */
  datatype EditNote = Changed | InvalidFormat | NotAnItem

  datatype EditOutcome = EditNotFound | EditNotOwner | InvalidLevelValue | Saved(character: Character, note: EditNote)

  /** The record `edit` saves (lines 184-206). Renaming is an `if` of its own,
      so it also falls through to the "not a valid item" branch. */
  function EditRecord(c: Character, attribute: string, value: string): EditOutcome
  {
    var attr := Lower(attribute);
    var record := if attr == "name" then c.(name := value) else c;
    if attr == "description" then Saved(record.(description := value), Changed)
    else if attr == "level" then
      match ParseInt(value)
      case None => InvalidLevelValue
      case Some(level) => Saved(record.(level := level), Changed)
    else if attr == "meta" then
      var written := ApplySegments(record.meta, Segments(value));
      Saved(record.(meta := written.meta), if written.ok then Changed else InvalidFormat)
    else Saved(record, NotAnItem)
  }

  /** `edit name attribute value` by `requester` (lines 173-208): the outcome
      and the records after it. A rename first removes the old key; a saved
      record is then added under its own name, whatever was there. */
  function EditFlow(chars: map<string, Character>, name: string, attribute: string, value: string, requester: UserId)
    : (EditOutcome, map<string, Character>)
  {
    if name !in chars then (EditNotFound, chars)
    else if chars[name].owner != requester then (EditNotOwner, chars)
    else
      var c := chars[name];
      var kept := if Lower(attribute) == "name" then chars - {c.name} else chars;
      var outcome := EditRecord(c, attribute, value);
      if outcome.Saved? then (outcome, kept[outcome.character.name := outcome.character])
      else (outcome, kept)
  }

  // ---------------------------------------------------------------- properties of create

  /** `create` either adds exactly one record, under the new name, and keeps
      every other record, or changes nothing. Since the name was free, the
      guild's records stay keyed by their own names. */
  lemma CreateAddsOne(chars: map<string, Character>, name: string, author: UserId, inbox: seq<Msg>)
    requires Consistent(chars) && name != []
    ensures var r := CreateFlow(chars, name, author, inbox);
      var after := AfterCreate(chars, r);
      && Consistent(after)
      && (r.Created? ==>
            && name !in chars && after.Keys == chars.Keys + {name} && after[name] == r.character
            && |after| == |chars| + 1
            && forall k :: k in chars ==> after[k] == chars[k])
      && (!r.Created? ==> after == chars)
  {
  }

  /** The steps run in order, and a timeout, a level that is not an integer
      or a `cancel` at the additional-info step ends `create` without a record. */
  lemma CreateAborts(chars: map<string, Character>, name: string, author: UserId, inbox: seq<Msg>)
    requires name !in chars
    ensures (|inbox| < 1 || inbox[0].Timeout?) ==> CreateFlow(chars, name, author, inbox) == TimedOut
    ensures (|inbox| >= 1 && inbox[0].Reply? && (|inbox| < 2 || inbox[1].Timeout?)) ==>
      CreateFlow(chars, name, author, inbox) == TimedOut
    ensures (|inbox| >= 2 && inbox[0].Reply? && inbox[1].Reply? && ParseInt(inbox[1].content).None?) ==>
      CreateFlow(chars, name, author, inbox) == InvalidLevel
    ensures (&& |inbox| >= 3 && inbox[0].Reply? && inbox[1].Reply? && ParseInt(inbox[1].content).Some?
             && inbox[2].Reply? && Lower(inbox[2].content) == "cancel") ==>
      CreateFlow(chars, name, author, inbox) == Cancelled
  {
    if |inbox| >= 3 {
      assert inbox[2..][0] == inbox[2];
    }
  }

  /** Once the description and a level are read, the additional-info step
      alone decides how `create` ends. */
  lemma CreateAfterLevel(chars: map<string, Character>, name: string, author: UserId, inbox: seq<Msg>)
    requires name !in chars && |inbox| >= 2 && inbox[0].Reply? && inbox[1].Reply?
    requires ParseInt(inbox[1].content).Some?
    ensures var r := CreateFlow(chars, name, author, inbox);
      match MetaDialogue(inbox[2..], map[])
      case MetaTimedOut => r == TimedOut
      case MetaCancelled => r == Cancelled
      case MetaDone(meta) =>
        r == Created(Character(name, author, inbox[0].content, ParseInt(inbox[1].content).value, [], meta))
  {
  }

  /** A reply the additional-info step cannot parse. Whether a reply parses
      does not depend on the pairs written before it. */
  predicate Malformed(m: Msg)
  {
    m.Reply? && Lower(m.content) != "cancel" && Lower(m.content) != "skip"
    && !ApplySegments(map[], Segments(m.content)).ok
  }

  lemma OkIndependentOfMeta(meta: map<string, string>, text: string)
    ensures ApplySegments(meta, Segments(text)).ok == ApplySegments(map[], Segments(text)).ok
  {
    ApplyOkIff(meta, Segments(text));
    ApplyOkIff(map[], Segments(text));
  }

  /** A badly formatted reply never ends the step: replies that are all
      malformed are asked again and again until the wait times out. */
  lemma {:induction false} MetaRetriesUntilTimeout(replies: seq<Msg>, meta: map<string, string>)
    requires forall i :: 0 <= i < |replies| ==> Malformed(replies[i])
    ensures MetaDialogue(replies, meta) == MetaTimedOut
    decreases |replies|
  {
    if replies != [] {
      OkIndependentOfMeta(meta, replies[0].content);
      var written := ApplySegments(meta, Segments(replies[0].content));
      MetaRetriesUntilTimeout(replies[1..], written.meta);
    }
  }

  /** `cancel`, in any case but not padded, ends the step even after any
      number of malformed replies. */
  lemma {:induction false} MetaCancelAfterRetries(replies: seq<Msg>, meta: map<string, string>, j: nat)
    requires j < |replies| && replies[j].Reply? && Lower(replies[j].content) == "cancel"
    requires forall i :: 0 <= i < j ==> Malformed(replies[i])
    ensures MetaDialogue(replies, meta) == MetaCancelled
    decreases j
  {
    if j > 0 {
      OkIndependentOfMeta(meta, replies[0].content);
      var written := ApplySegments(meta, Segments(replies[0].content));
      MetaCancelAfterRetries(replies[1..], written.meta, j - 1);
    }
  }

  /** No rollback across retries: every key written by an earlier, failed
      reply is still there when the step ends. */
  lemma {:induction false} MetaKeepsEarlierPairs(replies: seq<Msg>, meta: map<string, string>)
    requires MetaDialogue(replies, meta).MetaDone?
    ensures meta.Keys <= MetaDialogue(replies, meta).meta.Keys
    decreases |replies|
  {
    var text := replies[0].content;
    if Lower(text) != "cancel" && Lower(text) != "skip" {
      var written := ApplySegments(meta, Segments(text));
      ApplyKeepsKeys(meta, Segments(text));
      if !written.ok {
        MetaKeepsEarlierPairs(replies[1..], written.meta);
      }
    }
  }

  /** Reading `text` as meta pairs writes `key`: the keys a reply writes are
      the same whatever the map already holds (`ApplyKeepsUnwritten`). */
  predicate Writes(text: string, key: string)
  {
    key in ApplySegments(map[], Segments(text)).meta
  }

  /** No rollback across retries, value by value: a pair already in `meta`
      is still there, with the same value, when the step ends well, unless a
      later reply writes the same key. */
  lemma {:induction false} MetaKeepsEarlierValues(replies: seq<Msg>, meta: map<string, string>, key: string)
    requires MetaDialogue(replies, meta).MetaDone? && key in meta
    requires forall i :: 0 <= i < |replies| && replies[i].Reply? ==> !Writes(replies[i].content, key)
    ensures key in MetaDialogue(replies, meta).meta && MetaDialogue(replies, meta).meta[key] == meta[key]
    decreases |replies|
  {
    var text := replies[0].content;
    if Lower(text) != "cancel" && Lower(text) != "skip" {
      var segs := Segments(text);
      assert !Writes(text, key);
      ApplyKeepsUnwritten(meta, segs, key);
      var written := ApplySegments(meta, segs);
      if !written.ok {
        forall i | 0 <= i < |replies[1..]| && replies[1..][i].Reply?
          ensures !Writes(replies[1..][i].content, key)
        {
          assert replies[1..][i] == replies[i + 1];
        }
        MetaKeepsEarlierValues(replies[1..], written.meta, key);
      }
    }
  }

  /** A malformed reply is asked again, with the map it wrote. */
  lemma MetaRetryStep(replies: seq<Msg>, meta: map<string, string>)
    requires replies != [] && Malformed(replies[0])
    ensures MetaDialogue(replies, meta)
      == MetaDialogue(replies[1..], ApplySegments(meta, Segments(replies[0].content)).meta)
  {
    OkIndependentOfMeta(meta, replies[0].content);
  }

  /** `skip` ends the step with the map as it is. */
  lemma MetaSkip(replies: seq<Msg>, meta: map<string, string>)
    requires replies != [] && replies[0] == Reply("skip")
    ensures MetaDialogue(replies, meta) == MetaDone(meta)
  {
    assert Lower("skip") == "skip";
    assert Lower("skip") != "cancel";
  }

  lemma FailingFirstSegmentMalformed()
    ensures Malformed(Reply("x, a: 9"))
  {
    FailingFirstSegment(map[]);
    assert |Lower("x, a: 9")| == 7;
  }

  /** A pair after a reply's failing segment is never written: `"x, a: 9"`
      fails at `x`, so `a` keeps its earlier value. */
  lemma ExampleUnwrittenAfterFailure()
    ensures MetaDialogue([Reply("x, a: 9"), Reply("skip")], map["a" := "1"]) == MetaDone(map["a" := "1"])
  {
    var replies := [Reply("x, a: 9"), Reply("skip")];
    FailingFirstSegmentMalformed();
    FailingFirstSegment(map["a" := "1"]);
    MetaRetryStep(replies, map["a" := "1"]);
    MetaSkip(replies[1..], map["a" := "1"]);
  }

  /** No rollback into the record: a pair written by a malformed first meta
      reply reaches the created sheet with its value, unless a later reply
      writes the same key. */
  lemma CreateKeepsFailedPair(chars: map<string, Character>, name: string, author: UserId, inbox: seq<Msg>, key: string)
    requires |inbox| >= 3 && Malformed(inbox[2])
    requires key in ApplySegments(map[], Segments(inbox[2].content)).meta
    requires forall i :: 3 <= i < |inbox| && inbox[i].Reply? ==> !Writes(inbox[i].content, key)
    ensures var r := CreateFlow(chars, name, author, inbox);
      r.Created? ==>
        && key in r.character.meta
        && r.character.meta[key] == ApplySegments(map[], Segments(inbox[2].content)).meta[key]
  {
    var r := CreateFlow(chars, name, author, inbox);
    if r.Created? {
      var rest := inbox[2..];
      var written := ApplySegments(map[], Segments(inbox[2].content));
      assert rest[0] == inbox[2] && rest[1..] == inbox[3..];
      assert MetaDialogue(rest, map[]) == MetaDialogue(inbox[3..], written.meta);
      forall i | 0 <= i < |inbox[3..]| && inbox[3..][i].Reply?
        ensures !Writes(inbox[3..][i].content, key)
      {
        assert inbox[3..][i] == inbox[i + 3];
      }
      MetaKeepsEarlierValues(inbox[3..], written.meta, key);
    }
  }

  /** A meta text holding a colon is neither `cancel` nor `skip`, in any case. */
  lemma ColonNotCommand(text: string, i: nat)
    requires i < |text| && text[i] == ':'
    ensures Lower(text) != "cancel" && Lower(text) != "skip"
  {
    assert Lower(text)[i] == ':';
    assert ':' !in "cancel" && ':' !in "skip";
  }

  /** A complete conversation: any description, a level as `str` prints it
      and one `key: value` reply give the record with exactly that pair. The
      key and the value may hold blanks and colons, but no `": "`, comma or
      newline, and no whitespace at either end. */
  lemma CreateEndToEnd(chars: map<string, Character>, name: string, author: UserId,
                       description: string, level: int, key: string, value: string)
    requires name !in chars
    requires key != [] && !IsSpace(key[0]) && !IsSpace(key[|key| - 1])
    requires value != [] && !IsSpace(value[0]) && !IsSpace(value[|value| - 1])
    requires forall k :: 0 <= k < |key| ==> key[k] != ',' && key[k] != '\n'
    requires forall k :: 0 <= k < |value| ==> value[k] != ',' && value[k] != '\n'
    requires Count(key, ": ") == 0 && Count(value, ": ") == 0
    ensures CreateFlow(chars, name, author, [Reply(description), Reply(ShowInt(level)), Reply(key + ": " + value)])
      == Created(Character(name, author, description, level, [], map[key := value]))
  {
    var inbox := [Reply(description), Reply(ShowInt(level)), Reply(key + ": " + value)];
    ParseShowInt(level);
    assert inbox[2..] == [Reply(key + ": " + value)];
    MetaOnePair(key, value);
    CreateAfterLevel(chars, name, author, inbox);
  }

  /** The additional-info step given one `key: value` reply ends with that pair. */
  lemma MetaOnePair(key: string, value: string)
    requires key != [] && !IsSpace(key[0]) && !IsSpace(key[|key| - 1])
    requires value != [] && !IsSpace(value[0]) && !IsSpace(value[|value| - 1])
    requires forall k :: 0 <= k < |key| ==> key[k] != ',' && key[k] != '\n'
    requires forall k :: 0 <= k < |value| ==> value[k] != ',' && value[k] != '\n'
    requires Count(key, ": ") == 0 && Count(value, ": ") == 0
    ensures MetaDialogue([Reply(key + ": " + value)], map[]) == MetaDone(map[key := value])
  {
    var text := key + ": " + value;
    OnePairReply(map[], key, value);
    assert text[|key|] == ':';
    ColonNotCommand(text, |key|);
  }

  /** No rollback into the record: when a meta reply fails part-way and the
      next reply is `skip`, the character is created with the pairs the
      failed reply had already written. */
  lemma CreateKeepsPartialMeta(chars: map<string, Character>, name: string, author: UserId,
                               description: string, level: int, bad: string)
    requires name !in chars && Malformed(Reply(bad))
    ensures CreateFlow(chars, name, author, [Reply(description), Reply(ShowInt(level)), Reply(bad), Reply("skip")])
      == Created(Character(name, author, description, level, [], ApplySegments(map[], Segments(bad)).meta))
  {
    var inbox := [Reply(description), Reply(ShowInt(level)), Reply(bad), Reply("skip")];
    ParseShowInt(level);
    assert Lower("skip") == "skip";
    var written := ApplySegments(map[], Segments(bad));
    assert inbox[2..] == [Reply(bad), Reply("skip")];
    assert inbox[2..][1..] == [Reply("skip")];
    assert MetaDialogue(inbox[2..][1..], written.meta) == MetaDone(written.meta);
    assert MetaDialogue(inbox[2..], map[]) == MetaDialogue(inbox[2..][1..], written.meta);
  }

  /** The description step has no `cancel`: whatever the first reply says,
      `cancel` included, becomes the description. */
  lemma DescriptionVerbatim(chars: map<string, Character>, name: string, author: UserId,
                            description: string, level: int)
    requires name !in chars
    ensures CreateFlow(chars, name, author, [Reply(description), Reply(ShowInt(level)), Reply("skip")])
      == Created(Character(name, author, description, level, [], map[]))
  {
    var inbox := [Reply(description), Reply(ShowInt(level)), Reply("skip")];
    ParseShowInt(level);
    assert Lower("skip") == "skip";
    assert inbox[2..] == [Reply("skip")];
  }

  lemma PaddedCancelMalformed()
    ensures Malformed(Reply("cancel "))
  {
    var t := "cancel ";
    assert Lower(t) != "cancel" && Lower(t) != "skip";
    assert forall k :: 0 <= k < |t| ==> t[k] != '\n' && t[k] != ',' && t[k] != ':';
    SegmentsOfOne(t);
    SplitWithout(t, ": ");
    ApplyOne(map[], t);
  }

  /** `cancel` is matched in any case but not stripped: `CANCEL` cancels,
      `cancel ` is a malformed meta text and is asked again. */
  lemma ExampleCancelSpelling(meta: map<string, string>)
    ensures MetaDialogue([Reply("CANCEL")], meta) == MetaCancelled
    ensures MetaDialogue([Reply("cancel ")], meta) == MetaTimedOut
  {
    assert Lower("CANCEL") == "cancel";
    PaddedCancelMalformed();
    MetaRetriesUntilTimeout([Reply("cancel ")], meta);
  }

  // ---------------------------------------------------------------- properties of delete

  /** Only an existing record, and only its owner, can be deleted; deleting
      removes exactly that key and keeps every other record. */
  lemma DeleteRules(chars: map<string, Character>, name: string, requester: UserId)
    requires Consistent(chars)
    ensures var (outcome, after) := DeleteFlow(chars, name, requester);
      && Consistent(after)
      && (outcome == DeleteNotFound <==> name !in chars)
      && (outcome == DeleteNotOwner <==> name in chars && chars[name].owner != requester)
      && (outcome != Deleted ==> after == chars)
      && (outcome == Deleted ==>
            && name !in after && after.Keys == chars.Keys - {name} && |after| == |chars| - 1
            && forall k :: k in after ==> after[k] == chars[k])
  {
  }

  // ---------------------------------------------------------------- properties of edit

  /** A missing record or a requester who is not its owner changes nothing. */
  lemma EditGuards(chars: map<string, Character>, name: string, attribute: string, value: string, requester: UserId)
    ensures var (outcome, after) := EditFlow(chars, name, attribute, value, requester);
      && (outcome == EditNotFound <==> name !in chars)
      && (outcome == EditNotOwner <==> name in chars && chars[name].owner != requester)
      && (outcome.EditNotFound? || outcome.EditNotOwner? ==> after == chars)
  {
  }

  /** An owner's edit of the description replaces that field and keeps every
      other field and every other record. */
  lemma EditDescription(chars: map<string, Character>, name: string, attribute: string, value: string, requester: UserId)
    requires Consistent(chars) && name in chars && chars[name].owner == requester
    requires Lower(attribute) == "description"
    ensures var c := chars[name];
      var (outcome, after) := EditFlow(chars, name, attribute, value, requester);
      && outcome == Saved(c.(description := value), Changed)
      && after.Keys == chars.Keys
      && after[name].description == value && after[name].(description := c.description) == c
      && forall k :: k in chars && k != name ==> after[k] == chars[k]
  {
  }

  /** An owner's edit of the level: a value that is not an integer is refused
      before anything changes; an integer replaces the level and nothing else. */
  lemma EditLevel(chars: map<string, Character>, name: string, attribute: string, value: string, requester: UserId)
    requires Consistent(chars) && name in chars && chars[name].owner == requester
    requires Lower(attribute) == "level"
    ensures var c := chars[name];
      var (outcome, after) := EditFlow(chars, name, attribute, value, requester);
      && (ParseInt(value).None? ==> outcome == InvalidLevelValue && after == chars)
      && (ParseInt(value).Some? ==>
            && outcome == Saved(c.(level := ParseInt(value).value), Changed)
            && after == chars[name := c.(level := ParseInt(value).value)])
  {
  }

  /** An owner's edit of the meta writes the reply's pairs into the record's
      meta and saves it even when the reply is malformed: the pairs written
      before the bad segment are kept, and the note says the format was bad. */
  lemma EditMeta(chars: map<string, Character>, name: string, attribute: string, value: string, requester: UserId)
    requires Consistent(chars) && name in chars && chars[name].owner == requester
    requires Lower(attribute) == "meta"
    ensures var c := chars[name];
      var written := ApplySegments(c.meta, Segments(value));
      var (outcome, after) := EditFlow(chars, name, attribute, value, requester);
      && outcome == Saved(c.(meta := written.meta), if written.ok then Changed else InvalidFormat)
      && after == chars[name := c.(meta := written.meta)]
      && c.meta.Keys <= after[name].meta.Keys
  {
    ApplyKeepsKeys(chars[name].meta, Segments(value));
  }

  /** An owner's rename removes the old key and saves the record, otherwise
      unchanged, under the new name, sending the "not a valid item" note too.
      Nothing checks that the new name is free. */
  lemma EditRename(chars: map<string, Character>, name: string, attribute: string, value: string, requester: UserId)
    requires Consistent(chars) && name in chars && chars[name].owner == requester
    requires Lower(attribute) == "name"
    ensures var c := chars[name];
      EditFlow(chars, name, attribute, value, requester)
        == (Saved(c.(name := value), NotAnItem), (chars - {name})[value := c.(name := value)])
  {
  }

  /** So a rename onto a name already taken replaces that record, whoever
      owns it: the owner check of `edit` and `delete` does not protect it. */
  lemma RenameReplacesOther(chars: map<string, Character>, name: string, value: string, requester: UserId)
    requires Consistent(chars) && name in chars && chars[name].owner == requester
    requires value in chars && value != name && chars[value].owner != requester
    ensures var (_, after) := EditFlow(chars, name, "name", value, requester);
      && after.Keys == chars.Keys - {name}
      && after[value].owner == requester && after[value] != chars[value]
      && |after| == |chars| - 1
  {
    assert Lower("name") == "name";
    var (_, after) := EditFlow(chars, name, "name", value, requester);
    assert after.Keys == chars.Keys - {name};
  }

  /** Any other attribute saves the record exactly as it was. */
  lemma EditOtherAttribute(chars: map<string, Character>, name: string, attribute: string, value: string, requester: UserId)
    requires Consistent(chars) && name in chars && chars[name].owner == requester
    requires Lower(attribute) !in {"name", "description", "level", "meta"}
    ensures EditFlow(chars, name, attribute, value, requester) == (Saved(chars[name], NotAnItem), chars)
  {
    assert chars[name := chars[name]] == chars;
  }

  /** Every edit keeps the records keyed by their own non-empty names. */
  lemma EditKeepsConsistent(chars: map<string, Character>, name: string, attribute: string, value: string, requester: UserId)
    requires Consistent(chars) && value != []
    ensures Consistent(EditFlow(chars, name, attribute, value, requester).1)
  {
  }
}
