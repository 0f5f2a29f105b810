/** The character commands run against one guild's store of records
    (cogs/Characters.py:97-208). The store stands for the bot's data
    interface: adding a record puts it under its name, replacing what was
    there; removing one deletes its key. */
module Characters {
  import opened Text
  import opened Meta
  import opened Guild

  class CharacterStore {
    var chars: map<string, Character>

    ghost predicate Valid()
      reads this
    {
      Consistent(chars)
    }

    constructor (initial: map<string, Character>)
      requires Consistent(initial)
      ensures Valid() && chars == initial
    {
      chars := initial;
    }

    /** `create name` by `author`, whose replies are `inbox` in order
        (lines 99-143). The record is added only once every step has
        ended well. */
    method Create(name: string, author: UserId, inbox: seq<Msg>) returns (outcome: CreateOutcome)
      requires Valid() && name != []
      modifies this
      ensures Valid()
      ensures outcome == CreateFlow(old(chars), name, author, inbox)
      ensures chars == AfterCreate(old(chars), outcome)
    {
      if name in chars {
        return NameTaken;
      }
      if |inbox| < 1 || inbox[0].Timeout? {
        return TimedOut;
      }
      var description := inbox[0].content;
      if |inbox| < 2 || inbox[1].Timeout? {
        return TimedOut;
      }
      var level := ParseInt(inbox[1].content);
      if level.None? {
        return InvalidLevel;
      }
      // The pairs of a failed reply stay in `meta` for the next one.
      var meta: map<string, string> := map[];
      var i := 2;
      while true
        invariant 2 <= i <= |inbox| && chars == old(chars)
        invariant MetaDialogue(inbox[i..], meta) == MetaDialogue(inbox[2..], map[])
        decreases |inbox| - i
      {
        if i == |inbox| || inbox[i].Timeout? {
          return TimedOut;
        }
        var text := inbox[i].content;
        assert inbox[i..][1..] == inbox[i + 1..];
        if Lower(text) == "cancel" {
          return Cancelled;
        } else if Lower(text) == "skip" {
          break;
        }
        var ok;
        meta, ok := ParseMetaInto(text, meta);
        i := i + 1;
        if ok {
          break;
        }
      }
      var character := Character(name, author, description, level.value, [], meta);
      chars := chars[name := character];
      outcome := Created(character);
    }

    /** `delete name` by `requester` (lines 147-160). */
    method Delete(name: string, requester: UserId) returns (outcome: DeleteOutcome)
      requires Valid()
      modifies this
      ensures Valid()
      ensures (outcome, chars) == DeleteFlow(old(chars), name, requester)
    {
      if name !in chars {
        return DeleteNotFound;
      }
      if chars[name].owner != requester {
        return DeleteNotOwner;
      }
      chars := chars - {name};
      outcome := Deleted;
    }

    /** `edit name attribute value` by `requester` (lines 164-208). The
        command's last argument takes the rest of the message and cannot be
        empty. The record is re-added at the end whatever the attribute was;
        a level that is not an integer raises before that. */
    method Edit(name: string, attribute: string, value: string, requester: UserId) returns (outcome: EditOutcome)
      requires Valid() && value != []
      modifies this
      ensures Valid()
      ensures (outcome, chars) == EditFlow(old(chars), name, attribute, value, requester)
    {
      var attr := Lower(attribute);
      if name !in chars {
        return EditNotFound;
      }
      var record := chars[name];
      if record.owner != requester {
        return EditNotOwner;
      }
      if attr == "name" {
        chars := chars - {record.name};
        record := record.(name := value);
      }
      var note := Changed;
      if attr == "description" {
        record := record.(description := value);
      } else if attr == "level" {
        var level := ParseInt(value);
        if level.None? {
          return InvalidLevelValue;
        }
        record := record.(level := level.value);
      } else if attr == "meta" {
        var meta, ok := ParseMetaInto(value, record.meta);
        record := record.(meta := meta);
        if !ok {
          note := InvalidFormat;
        }
      } else {
        note := NotAnItem;
      }
      chars := chars[record.name := record];
      outcome := Saved(record, note);
    }
  }
}
