/** The two read-only listings of a guild's characters: `characters`, the
    names the caller owns (cogs/Characters.py:33-44), and `allchars`, every
    name grouped under its case-folded first letter (lines 46-68). A
    dictionary's iteration order is not part of the model: each view takes
    the order in which the store's keys come out as a sequence. */
module Views {
  import opened Text
  import opened Guild

  /** `keys` lists every key of `chars` exactly once, in some order. */
  predicate Enumerates(keys: seq<string>, chars: map<string, Character>)
  {
    (forall i, j :: 0 <= i < j < |keys| ==> keys[i] != keys[j])
    && (forall k :: 0 <= k < |keys| ==> keys[k] in chars)
    && (forall n :: n in chars ==> n in keys)
  }

  // ---------------------------------------------------------------- characters

  /** The list comprehension of line 38: the keys, in iteration order, whose
      record belongs to `author`. */
  function OwnedNames(keys: seq<string>, chars: map<string, Character>, author: UserId): (names: seq<string>)
    requires forall k :: 0 <= k < |keys| ==> keys[k] in chars
    ensures |names| <= |keys|
    ensures forall k :: 0 <= k < |names| ==> names[k] in keys && chars[names[k]].owner == author
  {
    if keys == [] then []
    else
      var rest := OwnedNames(keys[..|keys| - 1], chars, author);
      var last := keys[|keys| - 1];
      if chars[last].owner == author then rest + [last] else rest
  }

  /** A name is listed exactly when it is a character of the guild owned by
      `author`, and it is listed once. */
  lemma {:induction false} OwnedNamesExactly(keys: seq<string>, chars: map<string, Character>, author: UserId)
    requires forall k :: 0 <= k < |keys| ==> keys[k] in chars
    requires forall i, j :: 0 <= i < j < |keys| ==> keys[i] != keys[j]
    ensures forall n :: n in OwnedNames(keys, chars, author) <==> n in keys && chars[n].owner == author
    ensures forall i, j :: 0 <= i < j < |OwnedNames(keys, chars, author)| ==>
      OwnedNames(keys, chars, author)[i] != OwnedNames(keys, chars, author)[j]
    decreases |keys|
  {
    if keys != [] {
      var init := keys[..|keys| - 1];
      var last := keys[|keys| - 1];
      OwnedNamesExactly(init, chars, author);
      assert keys == init + [last];
    }
  }

  /** What `characters` answers. */
  datatype OwnedListing = NoCharacters | Listed(names: seq<string>)

  /** `characters` (lines 36-44): the owned names, or the "has no
      characters" reply when there are none. The embed's text is the names
      joined by newlines. */
  function CharactersView(keys: seq<string>, chars: map<string, Character>, author: UserId): (r: OwnedListing)
    requires Enumerates(keys, chars)
    ensures r.NoCharacters? <==> forall n :: n in chars ==> chars[n].owner != author
    ensures r.Listed? ==> forall n :: n in r.names <==> n in chars && chars[n].owner == author
  {
    var names := OwnedNames(keys, chars, author);
    OwnedNamesExactly(keys, chars, author);
    assert names != [] ==> names[0] in names;
    if names == [] then NoCharacters else Listed(names)
  }

  // ---------------------------------------------------------------- allchars

  /** Every key is non-empty, so `x[0]` is defined. */
  predicate NonEmptyNames(names: seq<string>)
  {
    forall k :: 0 <= k < |names| ==> names[k] != []
  }

  /** `x[0].casefold()`, restricted to ASCII letters. */
  function Initial(name: string): char
    requires name != []
  {
    LowerChar(name[0])
  }

  /** The names with initial `c`, in their original order: the list the loop
      builds under `c`. */
  function WithInitial(names: seq<string>, c: char): seq<string>
    requires NonEmptyNames(names)
  {
    if names == [] then []
    else
      var last := names[|names| - 1];
      WithInitial(names[..|names| - 1], c) + (if Initial(last) == c then [last] else [])
  }

  /** The loop of lines 57-62: a dictionary from each initial that occurs to
      the names with that initial, each group in the keys' order. */
  method GroupByInitial(names: seq<string>) returns (words: map<char, seq<string>>)
    requires NonEmptyNames(names)
    ensures forall c :: c in words <==> exists k :: 0 <= k < |names| && Initial(names[k]) == c
    ensures forall c :: c in words ==> words[c] == WithInitial(names, c)
    ensures words == map[] <==> names == []
  {
    words := map[];
    var i := 0;
    while i < |names|
      invariant 0 <= i <= |names|
      invariant forall c :: c in words <==> exists k :: 0 <= k < i && Initial(names[k]) == c
      invariant forall c :: c in words ==> words[c] == WithInitial(names[..i], c)
    {
      var x := names[i];
      var c := Initial(x);
      assert names[..i + 1][..i] == names[..i];
      assert names[..i + 1][i] == x;
      if c in words {
        words := words[c := words[c] + [x]];
      } else {
        assert WithInitial(names[..i], c) == [] by {
          WithInitialEmpty(names[..i], c);
        }
        words := words[c := [x]];
      }
      i := i + 1;
    }
    assert names[..|names|] == names;
    if names != [] {
      assert Initial(names[0]) in words;
    }
  }

  /** No name of `names` has initial `c`, so its group is empty. */
  lemma {:induction false} WithInitialEmpty(names: seq<string>, c: char)
    requires NonEmptyNames(names)
    requires forall k :: 0 <= k < |names| ==> Initial(names[k]) != c
    ensures WithInitial(names, c) == []
    decreases |names|
  {
    if names != [] {
      WithInitialEmpty(names[..|names| - 1], c);
    }
  }

  /** A group holds exactly the names with its initial, so every name lands
      in the group of its own initial and in no other. */
  lemma {:induction false} WithInitialMembers(names: seq<string>, c: char)
    requires NonEmptyNames(names)
    ensures forall n :: n in WithInitial(names, c) <==> n in names && Initial(n) == c
    decreases |names|
  {
    if names != [] {
      var init := names[..|names| - 1];
      WithInitialMembers(init, c);
      assert names == init + [names[|names| - 1]];
    }
  }

  /** The groups the loop builds are never empty, so the `if value` test of
      line 65 always passes. */
  lemma GroupsNonEmpty(names: seq<string>, words: map<char, seq<string>>)
    requires NonEmptyNames(names)
    requires forall c :: c in words <==> exists k :: 0 <= k < |names| && Initial(names[k]) == c
    requires forall c :: c in words ==> words[c] == WithInitial(names, c)
    ensures forall c :: c in words ==> words[c] != []
  {
    forall c | c in words
      ensures words[c] != []
    {
      var k :| 0 <= k < |names| && Initial(names[k]) == c;
      WithInitialMembers(names, c);
      assert names[k] in names;
    }
  }

  /** Over the keys of a consistent store the loop is defined (no key is
      empty), and every character of the guild is listed under its own
      initial and under no other. */
  lemma AllCharsListsEveryone(keys: seq<string>, chars: map<string, Character>)
    requires Consistent(chars) && Enumerates(keys, chars)
    ensures NonEmptyNames(keys)
    ensures forall n, c :: n in chars ==> (n in WithInitial(keys, c) <==> c == Initial(n))
  {
    forall n, c | n in chars
      ensures n in WithInitial(keys, c) <==> c == Initial(n)
    {
      WithInitialMembers(keys, c);
    }
  }
}
