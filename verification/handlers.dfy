/**
 * The command handlers of the bot as methods of one object. Its state is the
 * set of users who have sent the start command and the persisted store file;
 * the admin id is fixed when the object is made. Every handler takes the
 * caller's id (and, for the add command, the raw message text) and returns the
 * messages it sends back, in order.
 */
module Handlers {
  import opened Wrappers
  import opened RecordStore
  import opened Commands

  /** The eight registered commands. */
  datatype Command = CmdStart | CmdHelp | CmdCorpuses | CmdGallery | CmdNews | CmdResources | CmdStats | CmdAdd

  class BotState {
    /** Ids of the callers that have sent the start command; kept in memory only. */
    var users: set<int>
    /** The store file `data/models.json`, loaded afresh by every handler that reads it. */
    var store: StoreFile
    /** The one caller allowed to use the statistics and add commands. */
    const admin: int

    /**
     * The stored object has unique names, as every object written by
     * `json.dump` of a dict does. This only records the dict's unique-key
     * invariant: the constructor establishes it, `Add` and `Handle` keep it, and no
     * reply depends on it.
     */
    ghost predicate Valid()
      reads this
    {
      UniqueNames(Load(store))
    }

    /** A freshly started bot: no users yet, the store as found on disk. */
    constructor (admin: int, saved: StoreFile)
      requires UniqueNames(Load(saved))
      ensures Valid() && this.admin == admin && users == {} && store == saved
    {
      this.admin := admin;
      users := {};
      store := saved;
    }

    /** The start command records the caller and greets. */
    method Start(caller: int) returns (out: seq<Reply>)
      modifies this`users
      ensures users == old(users) + {caller} && caller in users
      ensures out == [Text(Welcome)]
    {
      users := users + {caller};
      out := [Text(Welcome)];
    }

    /** The listing command: the store's records, one line each, in store order. */
    method Corpuses() returns (out: seq<Reply>)
      ensures out == [Text(Listing(Load(store)))]
    {
      var models := Load(store);
      if models == [] {
        return [Text(NoBuildings)];
      }
      var text := ListTitle + "\n";
      var i := 0;
      while i < |models|
        invariant 0 <= i <= |models|
        invariant text == ListTitle + "\n" + Lines(models[..i])
      {
        LinesAppend(models[..i], [models[i]]);
        assert models[..i + 1] == models[..i] + [models[i]];
        text := text + (LineOf(models[i]) + "\n");
        i := i + 1;
      }
      assert models[..i] == models;
      out := [Text(text)];
    }

    /**
     * The gallery command: one photo per record whose image path is present,
     * non-empty and in `files` (the paths that exist on disk), in store order.
     */
    method Gallery(files: set<string>) returns (out: seq<Reply>)
      ensures out == Photos(Load(store), files)
    {
      var models := Load(store);
      out := [];
      var i := 0;
      while i < |models|
        invariant 0 <= i <= |models|
        invariant out == Photos(models[..i], files)
      {
        PhotosAppend(models[..i], [models[i]], files);
        assert models[..i + 1] == models[..i] + [models[i]];
        var img := models[i].record.image;
        if img.Some? && img.value != "" && img.value in files {
          out := out + [Photo(img.value, models[i].record.description)];
        }
        i := i + 1;
      }
      assert models[..i] == models;
    }

    /** The statistics command: silent for anyone but the admin, the user count for the admin. */
    method Stats(caller: int) returns (out: seq<Reply>)
      ensures caller != admin ==> out == []
      ensures caller == admin ==> out == [Text(StatsText(|users|))]
    {
      if caller != admin {
        return [];
      }
      out := [Text(StatsText(|users|))];
    }

    /**
     * The add command. Anyone but the admin gets no answer; a text that does
     * not split into exactly three fields gets the usage message; otherwise the
     * store gets the record under its name, every other name keeps its record,
     * and the reply names the model.
     */
    method Add(caller: int, text: string) returns (out: seq<Reply>)
      requires Valid()
      modifies this`store
      ensures Valid()
      ensures caller != admin ==> out == [] && store == old(store)
      ensures caller == admin && ParseAdd(text).None? ==> out == [Text(AddUsage)] && store == old(store)
      ensures caller == admin && ParseAdd(text).Some? ==>
                var a := ParseAdd(text).value;
                var record := Record(a.description, Some(a.image));
                && store == Save(Put(Load(old(store)), a.name, record))
                && ToMap(Load(store)) == ToMap(Load(old(store)))[a.name := record]
                && out == [Text(AddedPrefix + a.name)]
    {
      if caller != admin {
        return [];
      }
      var args := ParseAdd(text);
      if args.None? {
        return [Text(AddUsage)];
      }
      var AddArgs(name, description, image) := args.value;
      var models := Load(store);
      PutKeepsUnique(models, name, Record(description, Some(image)));
      PutUpdates(models, name, Record(description, Some(image)));
      models := Put(models, name, Record(description, Some(image)));
      store := Save(models);
      out := [Text(AddedPrefix + name)];
    }

    /**
     * One incoming command, routed to its handler. Only the start command
     * changes the users, and it only adds; only the add command changes the store.
     */
    method Handle(cmd: Command, caller: int, text: string, files: set<string>) returns (out: seq<Reply>)
      requires Valid()
      modifies this
      ensures Valid()
      ensures users == if cmd == CmdStart then old(users) + {caller} else old(users)
      ensures old(users) <= users
      ensures cmd != CmdAdd ==> store == old(store)
      ensures caller != admin && (cmd == CmdStats || cmd == CmdAdd) ==> out == [] && store == old(store)
    {
      match cmd
      case CmdStart => out := Start(caller);
      case CmdHelp => out := [Text(HelpText)];
      case CmdCorpuses => out := Corpuses();
      case CmdGallery => out := Gallery(files);
      case CmdNews => out := [Text(NewsText)];
      case CmdResources => out := [Text(ResourcesText)];
      case CmdStats => out := Stats(caller);
      case CmdAdd => out := Add(caller, text);
    }
  }

  /**
   * After the callers in `callers` have each sent the start command to a fresh
   * bot, the admin's statistics command reports the number of distinct callers.
   */
  method StatsAfterStarts(admin: int, saved: StoreFile, callers: seq<int>) returns (out: seq<Reply>)
    requires UniqueNames(Load(saved))
    ensures out == [Text(StatsText(|set c | c in callers|))]
  {
    var bot := new BotState(admin, saved);
    var i := 0;
    while i < |callers|
      invariant 0 <= i <= |callers|
      invariant bot.admin == admin
      invariant bot.users == set c | c in callers[..i]
    {
      var greeting := bot.Start(callers[i]);
      assert callers[..i + 1] == callers[..i] + [callers[i]];
      i := i + 1;
    }
    assert callers[..i] == callers;
    out := bot.Stats(admin);
  }

  /** Sending the same add command twice leaves the store as sending it once. */
  method AddTwice(admin: int, saved: StoreFile, text: string) returns (once: StoreFile, twice: StoreFile)
    requires UniqueNames(Load(saved))
    ensures once == twice
  {
    var bot := new BotState(admin, saved);
    var reply := bot.Add(admin, text);
    once := bot.store;
    reply := bot.Add(admin, text);
    twice := bot.store;
    match ParseAdd(text)
    case None =>
    case Some(a) =>
      var record := Record(a.description, Some(a.image));
      assert once == Save(Put(Load(saved), a.name, record));
      assert twice == Save(Put(Load(once), a.name, record));
      PutIdempotent(Load(saved), a.name, record);
  }

  /**
   * On a bot with no store file yet, the admin's `/добавить NAME | DESC | IMAGE`
   * followed by the listing command lists exactly that one model.
   */
  method AddThenList(admin: int, name: string, description: string, image: string) returns (out: seq<Reply>)
    requires '|' !in name && '|' !in description && '|' !in image
    requires name != [] && !Strings.IsSpace(name[0]) && image != [] && !Strings.IsSpace(image[|image| - 1])
    requires Strings.Find(name + FieldSep + description + FieldSep + image, AddCommand).None?
    ensures out == [Text(ListTitle + "\n" + "🔹 " + name + ": " + description + "\n")]
  {
    var bot := new BotState(admin, Absent);
    var text := AddCommand + " " + (name + FieldSep + description + FieldSep + image);
    ParseAddWellFormed(name, description, image);
    var added := bot.Add(admin, text);
    var e := Entry(name, Record(description, Some(image)));
    assert bot.store == Saved([e]);
    out := bot.Corpuses();
    ListingOne(e);
  }

  lemma ListingOne(e: Entry)
    ensures Listing([e]) == ListTitle + "\n" + "🔹 " + e.name + ": " + e.record.description + "\n"
  {
    assert [e][1..] == [];
    assert Lines([e]) == LineOf(e) + "\n" + "";
    var head, line := ListTitle + "\n", "🔹 " + e.name + ": " + e.record.description;
    assert head + (line + "\n" + "") == head + line + "\n";
  }

}
