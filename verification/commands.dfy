/**
 * The pure part of the command handlers: the fixed reply texts, the argument
 * parser of the add command, the listing text and the gallery's choice of photos.
 */
module Commands {
  import opened Wrappers
  import opened Strings
  import opened RecordStore

  /** One outbound message: `message.answer(text)` or `message.answer_photo(file, caption)`. */
  datatype Reply = Text(text: string) | Photo(path: string, caption: string)

  const Welcome: string :=
    "Привет! Я бот-помощник по 3D-картам корпусов университета.\n"
    + "Команды: /корпуса /галерея /новости /ресурсы /помощь"
  const HelpText: string :=
    "/корпуса — список корпусов\n"
    + "/галерея — изображения\n"
    + "/новости — прогресс проекта\n"
    + "/ресурсы — полезные ссылки"
  const NewsText: string :=
    "📰 Новости проекта:\n"
    + "1. Создан корпус A\n"
    + "2. Добавлен корпус B\n"
    + "3. Интеграция с 2ГИС"
  const ResourcesText: string := "🔗 Полезные ссылки:\n- https://2gis.ru\n- https://mospolytech.ru"

  /** The listing's reply when the store is empty. */
  const NoBuildings: string := "Нет доступных корпусов."
  /** The first line of a non-empty listing, without its newline. */
  const ListTitle: string := "📍 Список корпусов:"

  const StatsPrefix: string := "Всего пользователей: "

  /** The command token the add handler deletes from the message text. */
  const AddCommand: string := "/добавить"
  /** The separator between the add command's fields. */
  const FieldSep: string := " | "
  const AddUsage: string := "Формат: /добавить Название | Описание | путь_к_изображению"
  const AddedPrefix: string := "✅ Добавлен корпус "

  // ---------------------------------------------------------------------------
  // The add command's arguments

  /** The three fields of a well-formed add command. */
  datatype AddArgs = AddArgs(name: string, description: string, image: string)

  /** The argument text: every occurrence of the command token deleted, then surrounding whitespace stripped. */
  function ArgText(text: string): (a: string)
    ensures a != [] ==> !IsSpace(a[0]) && !IsSpace(a[|a| - 1])
  {
    Strip(RemoveAll(text, AddCommand))
  }

  /** The fields of the argument text, split on `" | "`. */
  function Fields(text: string): seq<string> {
    Split(ArgText(text), FieldSep)
  }

  /**
   * The add command's parser: exactly three fields, or nothing. A result's
   * fields rebuild the argument text with the separator and hold no separator
   * themselves.
   */
  function ParseAdd(text: string): (r: Option<AddArgs>)
    ensures r.Some? <==> |Fields(text)| == 3
    ensures r.Some? ==> ArgText(text) == r.value.name + FieldSep + r.value.description + FieldSep + r.value.image
    ensures r.Some? ==> Find(r.value.name, FieldSep).None? && Find(r.value.description, FieldSep).None?
                        && Find(r.value.image, FieldSep).None?
    ensures r.Some? ==> r.value.name != [] && !IsSpace(r.value.name[0])
                        && r.value.image != [] && !IsSpace(r.value.image[|r.value.image| - 1])
    ensures r.Some? ==> Find(ArgText(text), FieldSep) == Some(|r.value.name|)
                        && Find(r.value.description + FieldSep + r.value.image, FieldSep)
                           == Some(|r.value.description|)
  {
    var fields := Fields(text);
    if |fields| == 3 then
      FieldsOfArgs(ArgText(text));
      Some(AddArgs(fields[0], fields[1], fields[2]))
    else
      None
  }

  /**
   * A stripped text that is split around a separator beginning and ending with
   * a space has a non-empty first and last piece.
   */
  lemma SpacedSepEnds(s: string, a: string, b: string, c: string, sep: string)
    requires s == a + sep + b + sep + c
    requires sep != [] && IsSpace(sep[0]) && IsSpace(sep[|sep| - 1])
    requires s != [] ==> !IsSpace(s[0]) && !IsSpace(s[|s| - 1])
    ensures a != [] && !IsSpace(a[0]) && c != [] && !IsSpace(c[|c| - 1])
  {
    assert s == (a + sep) + (b + sep + c) && s == (a + sep + b) + (sep + c);
    assert s[0] == (a + sep)[0];
    assert s[|s| - 1] == (sep + c)[|sep + c| - 1];
  }

  /** What `split(" | ")` of a stripped argument text gives when it gives three fields. */
  lemma FieldsOfArgs(a: string)
    requires a != [] ==> !IsSpace(a[0]) && !IsSpace(a[|a| - 1])
    requires |Split(a, FieldSep)| == 3
    ensures var f := Split(a, FieldSep);
            && a == f[0] + FieldSep + f[1] + FieldSep + f[2]
            && Find(f[0], FieldSep).None? && Find(f[1], FieldSep).None? && Find(f[2], FieldSep).None?
            && f[0] != [] && !IsSpace(f[0][0]) && f[2] != [] && !IsSpace(f[2][|f[2]| - 1])
            && Find(a, FieldSep) == Some(|f[0]|) && Find(f[1] + FieldSep + f[2], FieldSep) == Some(|f[1]|)
  {
    SplitJoinsBack(a, FieldSep);
    SplitPiecesLackSep(a, FieldSep);
    SplitThreeCuts(a, FieldSep);
    ThreeFields(a, Split(a, FieldSep));
  }

  /** Facts about a stripped argument text that splits into three fields. */
  lemma ThreeFields(s: string, fields: seq<string>)
    requires |fields| == 3 && Join(fields, FieldSep) == s
    requires s != [] ==> !IsSpace(s[0]) && !IsSpace(s[|s| - 1])
    ensures s == fields[0] + FieldSep + fields[1] + FieldSep + fields[2]
    ensures fields[0] != [] && !IsSpace(fields[0][0])
    ensures fields[2] != [] && !IsSpace(fields[2][|fields[2]| - 1])
  {
    JoinThree(fields, FieldSep);
    FieldSepSpaced();
    SpacedSepEnds(s, fields[0], fields[1], fields[2], FieldSep);
  }

  lemma FieldSepSpaced()
    ensures FieldSep != [] && IsSpace(FieldSep[0]) && IsSpace(FieldSep[|FieldSep| - 1])
  {
  }

  /** An argument text without any `" | "` (the empty argument among them) is one field and is refused. */
  lemma ParseAddRejectsSingleField(text: string)
    requires Find(ArgText(text), FieldSep).None?
    ensures ParseAdd(text) == None
  {
    SplitSingle(ArgText(text), FieldSep);
  }

  /**
   * A command written as the usage message shows, `/добавить NAME | DESC | IMAGE`,
   * parses into exactly those fields, provided that no field contains `|` or
   * the command token, the name does not start with whitespace and the image
   * path does not end with it.
   */
  lemma ParseAddWellFormed(name: string, description: string, image: string)
    requires '|' !in name && '|' !in description && '|' !in image
    requires name != [] && !IsSpace(name[0]) && image != [] && !IsSpace(image[|image| - 1])
    requires Find(name + FieldSep + description + FieldSep + image, AddCommand).None?
    ensures ParseAdd(AddCommand + " " + (name + FieldSep + description + FieldSep + image))
            == Some(AddArgs(name, description, image))
  {
    var args := name + FieldSep + description + FieldSep + image;
    WellFormedArgs(name, description, image);
    ParseAddOfArgs(args, [name, description, image]);
  }

  /** The argument text and the fields of a usage-shaped command. */
  lemma WellFormedArgs(name: string, description: string, image: string)
    requires '|' !in name && '|' !in description && '|' !in image
    requires name != [] && !IsSpace(name[0]) && image != [] && !IsSpace(image[|image| - 1])
    requires Find(name + FieldSep + description + FieldSep + image, AddCommand).None?
    ensures var args := name + FieldSep + description + FieldSep + image;
            ArgText(AddCommand + " " + args) == args && Split(args, FieldSep) == [name, description, image]
  {
    var args := name + FieldSep + description + FieldSep + image;
    Ends(name, FieldSep, description, image);
    ArgTextOfCommand(args);
    FieldSepMarker();
    SplitThree(name, description, image, FieldSep, 1);
  }

  /** The first and last characters of `a + sep + b + sep + c`. */
  lemma Ends(a: string, sep: string, b: string, c: string)
    requires a != [] && c != []
    ensures var s := a + sep + b + sep + c; s[0] == a[0] && s[|s| - 1] == c[|c| - 1]
  {
    var s := a + sep + b + sep + c;
    assert s == a + (sep + b + sep + c);
    assert s == (a + sep + b + sep) + c;
  }

  /** `|` is the character that marks the field separator. */
  lemma FieldSepMarker()
    ensures MarkerOf(FieldSep, 1) && FieldSep[1] == '|'
  {
  }

  lemma ParseAddOfArgs(args: string, fields: seq<string>)
    requires |fields| == 3
    requires ArgText(AddCommand + " " + args) == args && Split(args, FieldSep) == fields
    ensures ParseAdd(AddCommand + " " + args) == Some(AddArgs(fields[0], fields[1], fields[2]))
  {
  }

  /** The argument text of `/добавить ARGS` is `ARGS` when it does not need stripping or token removal. */
  lemma ArgTextOfCommand(args: string)
    requires args != [] && !IsSpace(args[0]) && !IsSpace(args[|args| - 1])
    requires Find(args, AddCommand).None?
    ensures ArgText(AddCommand + " " + args) == args
  {
    var spaced := " " + args;
    assert AddCommand + " " + args == AddCommand + spaced;
    RemoveAllCommandPrefix(spaced);
    SpacedNoCommand(args);
    RemoveAllNoMatch(spaced, AddCommand);
    StripSkipsLeadingSpace(' ', args);
    StripKeeps(args);
  }

  lemma SpacedNoCommand(args: string)
    requires Find(args, AddCommand).None?
    ensures Find(" " + args, AddCommand).None?
  {
    var spaced := " " + args;
    assert spaced[1..] == args;
    if |AddCommand| <= |spaced| {
      assert spaced[..|AddCommand|][0] == ' ';
    }
  }

  lemma RemoveAllCommandPrefix(s: string)
    ensures RemoveAll(AddCommand + s, AddCommand) == RemoveAll(s, AddCommand)
  {
    var u := AddCommand + s;
    assert u[..|AddCommand|] == AddCommand && u[|AddCommand|..] == s;
  }

  // ---------------------------------------------------------------------------
  // The listing

  /** The line listing one record, without its newline. */
  function LineOf(e: Entry): string {
    "🔹 " + e.name + ": " + e.record.description
  }

  /** The listing's record lines, each followed by a newline, in store order. */
  function Lines(m: Models): string {
    if m == [] then "" else LineOf(m[0]) + "\n" + Lines(m[1..])
  }

  /** The listing reply for a loaded store. */
  function Listing(m: Models): string {
    if m == [] then NoBuildings else ListTitle + "\n" + Lines(m)
  }

  /** The record lines of a store, without newlines. */
  function LinesOf(m: Models): (ls: seq<string>)
    ensures |ls| == |m| && forall k :: 0 <= k < |m| ==> ls[k] == LineOf(m[k])
  {
    if m == [] then [] else [LineOf(m[0])] + LinesOf(m[1..])
  }

  /** The record lines of two stores put together are those of the first, then those of the second. */
  lemma {:induction false} LinesAppend(a: Models, b: Models)
    ensures Lines(a + b) == Lines(a) + Lines(b)
  {
    if a != [] {
      LinesAppend(a[1..], b);
      var x := LineOf(a[0]) + "\n";
      assert (a + b)[0] == a[0] && (a + b)[1..] == a[1..] + b;
      assert Lines(a + b) == x + Lines(a[1..] + b);
      assert Lines(a) == x + Lines(a[1..]);
      assert x + (Lines(a[1..]) + Lines(b)) == (x + Lines(a[1..])) + Lines(b);
    } else {
      assert a + b == b;
    }
  }

  lemma {:induction false} LinesAsJoin(m: Models)
    ensures Lines(m) == Join(LinesOf(m) + [""], "\n")
  {
    if m != [] {
      LinesAsJoin(m[1..]);
      var parts := LinesOf(m) + [""];
      assert parts[1..] == LinesOf(m[1..]) + [""];
    }
  }

  /**
   * Listing the empty store gives exactly the "no buildings" text. Otherwise,
   * read line by line, the listing is its title followed by exactly one
   * `🔹 name: description` line per record in store order (and the empty rest
   * after the final newline), provided that names and descriptions hold no newline.
   */
  lemma ListingLines(m: Models)
    requires forall k :: 0 <= k < |m| ==> '\n' !in m[k].name && '\n' !in m[k].record.description
    ensures m == [] ==> Listing(m) == NoBuildings
    ensures m != [] ==> Split(Listing(m), "\n") == [ListTitle] + LinesOf(m) + [""]
  {
    if m != [] {
      var parts := [ListTitle] + LinesOf(m) + [""];
      ListingAsJoin(m, parts);
      TitleOneLine();
      LineBreaksOnlyBetween(m, ListTitle, parts);
      SplitJoin(parts, "\n", 0);
    }
  }

  lemma ListingAsJoin(m: Models, parts: seq<string>)
    requires m != [] && parts == [ListTitle] + LinesOf(m) + [""]
    ensures Join(parts, "\n") == Listing(m)
  {
    LinesAsJoin(m);
    assert parts[1..] == LinesOf(m) + [""];
  }

  lemma LineBreaksOnlyBetween(m: Models, title: string, parts: seq<string>)
    requires forall k :: 0 <= k < |m| ==> '\n' !in m[k].name && '\n' !in m[k].record.description
    requires '\n' !in title && parts == [title] + LinesOf(m) + [""]
    ensures forall k :: 0 <= k < |parts| ==> '\n' !in parts[k]
  {
    var ls := LinesOf(m);
    forall k | 0 <= k < |ls| ensures '\n' !in ls[k] {
      LineOfOneLine(m[k]);
    }
    NoneContain('\n', title, ls, parts);
  }

  lemma TitleOneLine()
    ensures '\n' !in ListTitle
  {
  }

  lemma NoneContain(c: char, title: string, ls: seq<string>, parts: seq<string>)
    requires c !in title && forall k :: 0 <= k < |ls| ==> c !in ls[k]
    requires parts == [title] + ls + [""]
    ensures forall k :: 0 <= k < |parts| ==> c !in parts[k]
  {
    assert forall k :: 1 <= k < |parts| - 1 ==> parts[k] == ls[k - 1];
  }

  lemma LineOfOneLine(e: Entry)
    requires '\n' !in e.name && '\n' !in e.record.description
    ensures '\n' !in LineOf(e)
  {
    var bullet, colon := "🔹 ", ": ";
    assert '\n' !in bullet && '\n' !in colon;
    assert LineOf(e) == bullet + e.name + colon + e.record.description;
  }

  // ---------------------------------------------------------------------------
  // The gallery

  /** The gallery shows a record when its image path is present, non-empty and exists. */
  predicate Shown(e: Entry, files: set<string>) {
    e.record.image.Some? && e.record.image.value != "" && e.record.image.value in files
  }

  /** The photos the gallery sends for a loaded store, in store order. */
  function Photos(m: Models, files: set<string>): (ps: seq<Reply>)
    ensures |ps| <= |m|
  {
    if m == [] then []
    else if Shown(m[0], files) then [Photo(m[0].record.image.value, m[0].record.description)] + Photos(m[1..], files)
    else Photos(m[1..], files)
  }

  /** The photos of two stores put together are those of the first, then those of the second. */
  lemma {:induction false} PhotosAppend(a: Models, b: Models, files: set<string>)
    ensures Photos(a + b, files) == Photos(a, files) + Photos(b, files)
  {
    if a != [] {
      PhotosAppend(a[1..], b, files);
      assert (a + b)[0] == a[0] && (a + b)[1..] == a[1..] + b;
      if Shown(a[0], files) {
        var p := Photo(a[0].record.image.value, a[0].record.description);
        calc {
          Photos(a + b, files);
          [p] + Photos(a[1..] + b, files);
          [p] + (Photos(a[1..], files) + Photos(b, files));
          ([p] + Photos(a[1..], files)) + Photos(b, files);
        }
      }
    } else {
      assert a + b == b;
    }
  }

  /**
   * Every photo sent is the image of a shown record, captioned with that
   * record's description; and every shown record's image is sent.
   */
  lemma {:induction false} PhotosAreShownRecords(m: Models, files: set<string>)
    ensures forall p :: p in Photos(m, files) ==>
              exists e :: e in m && Shown(e, files) && p == Photo(e.record.image.value, e.record.description)
    ensures forall e :: e in m && Shown(e, files) ==> Photo(e.record.image.value, e.record.description) in Photos(m, files)
  {
    if m != [] {
      PhotosAreShownRecords(m[1..], files);
      assert forall e :: e in m ==> e == m[0] || e in m[1..];
    }
  }

  /** A store where no record is shown sends no photo at all. */
  lemma {:induction false} NoShownNoPhotos(m: Models, files: set<string>)
    requires forall k :: 0 <= k < |m| ==> !Shown(m[k], files)
    ensures Photos(m, files) == []
  {
    if m != [] {
      NoShownNoPhotos(m[1..], files);
    }
  }

  // ---------------------------------------------------------------------------
  // The statistics

  /** The statistics reply for `n` users. */
  function StatsText(n: nat): string {
    StatsPrefix + NatToDecimal(n)
  }

  /** The number written after the prefix of the statistics reply is the user count. */
  lemma StatsTextNumber(n: nat)
    ensures |StatsText(n)| > |StatsPrefix| && StatsText(n)[..|StatsPrefix|] == StatsPrefix
    ensures IsDigits(StatsText(n)[|StatsPrefix|..])
    ensures DecimalValue(StatsText(n)[|StatsPrefix|..]) == n
  {
    assert StatsText(n)[|StatsPrefix|..] == NatToDecimal(n);
    DecimalRoundTrip(n);
  }

}
