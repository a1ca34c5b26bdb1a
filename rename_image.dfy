/**
 * The script `rename_image.py`: every image given on the command line is
 * renamed after the creation date in its EXIF metadata. Images that share a
 * date form a group; a group of one becomes `<dir>/<date><ext>`, a larger
 * group `<dir>/<date>_<k><ext>` with k counting from 1 in input order.
 *
 * Reading the EXIF tag is the parameter `created`; `print` and `os.rename`
 * are events appended to one ordered log.
 */
module RenameImage {
  import opened Wrappers
  import opened Text
  import PosixPath

  /** An image argument: a file opened by path; `name` is that path. */
  datatype ImageFile = ImageFile(name: string)

  /** The exceptions the script can raise in the modelled part. */
  datatype Error =
    | IndexError   // `split()[0]` of a date made of whitespace only
    | EmptyGroup   // `raise Exception("Bad things happened")`
    | TypeError    // `None + extension` for a one-image group keyed `None`

  /** A grouping key: what `format_date` returned for an image. */
  type Key = Option<string>

  /** One observable effect: a line printed to standard output, or a call
      `os.rename(src, dst)`. */
  datatype Event = Print(line: string) | Rename(src: string, dst: string)

  /** The effects of a run in order, and the exception that ended it, if any. */
  datatype Transcript = Transcript(events: seq<Event>, error: Option<Error>)

  // ---------------------------------------------------------------------
  // format_date

  /** What `format_date` can return as a date: a non-empty string with no
      whitespace and no ':'. */
  predicate IsDate(d: string) {
    d != [] && NoSpace(d) && ':' !in d
  }

  /** `format_date(date_str)`: `None` for the empty string; otherwise the first
      whitespace-separated token with every ':' turned into '-'; `IndexError`
      when there is no token at all. */
  function FormatDate(dateStr: string): (r: Result<Key, Error>)
    ensures r == Success(None) <==> dateStr == []
    ensures r == Failure(IndexError) <==> dateStr != [] && AllSpace(dateStr)
    ensures r.Failure? ==> r.error == IndexError
    ensures r.Success? && r.value.Some? ==> IsDate(r.value.value)
  {
    if dateStr == [] then Success(None)
    else
      var tokens := Split(dateStr);
      SplitEmpty(dateStr);
      if tokens == [] then Failure(IndexError)
      else
        SplitTokens(dateStr);
        assert tokens[0] in tokens;
        ReplaceRemoves(tokens[0], ':', '-');
        Success(Some(Replace(tokens[0], ':', '-')))
  }

  // ---------------------------------------------------------------------
  // get_name_info and the new names of do_rename

  /** `get_name_info(old)`: `os.path.split(old)` and the extension of
      `os.path.splitext(old)`. */
  function GetNameInfo(oldPath: string): ((string, string), string) {
    (PosixPath.Split(oldPath), PosixPath.SplitExt(oldPath).1)
  }

  /** The extension `get_name_info` returns is empty or starts with '.', and
      it is a suffix of the last component of the path, which is the second
      half of the split. */
  lemma GetNameInfoParts(oldPath: string)
    ensures var (path, extension) := GetNameInfo(oldPath);
      && path.1 == PosixPath.Base(oldPath)
      && PosixPath.IsExtension(extension)
      && |extension| <= |path.1| && extension == path.1[|path.1| - |extension|..]
  {
    PosixPath.SplitParts(oldPath);
    PosixPath.SplitExtRoundTrip(oldPath);
    PosixPath.SplitExtOfBase(oldPath);
  }

  /** `os.path.join(*path[:-1], name)` with `path` the split of `oldPath`. */
  function Target(oldPath: string, name: string): string {
    PosixPath.Join(GetNameInfo(oldPath).0.0, name)
  }

  /** The new path of the only image of a group keyed `Some(date)`. */
  function SingleTarget(oldPath: string, date: string): string {
    Target(oldPath, date + GetNameInfo(oldPath).1)
  }

  /** The new path of the k-th image (from 1) of a larger group. */
  function IndexedTarget(oldPath: string, dateText: string, k: nat): string {
    Target(oldPath, dateText + "_" + Decimal(k) + GetNameInfo(oldPath).1)
  }

  // ---------------------------------------------------------------------
  // The grouping loop of main

  /** A Python dict from keys to lists of images, keys in insertion order. */
  datatype Groups = Groups(keys: seq<Key>, members: map<Key, seq<ImageFile>>) {
    /** Each key once, and exactly the keys that have a list. */
    ghost predicate Valid() {
      && (forall i, j :: 0 <= i < j < |keys| ==> keys[i] != keys[j])
      && (forall k :: k in members <==> k in keys)
    }
  }

  /** `images[key].append(image)` on a `defaultdict(list)`. */
  function Append(g: Groups, key: Key, image: ImageFile): (r: Groups)
    ensures key in r.members && r.members[key] == (if key in g.members then g.members[key] else []) + [image]
    ensures forall k :: k != key && k in g.members ==> k in r.members && r.members[k] == g.members[k]
    ensures r.members.Keys == g.members.Keys + {key}
    ensures r.keys == if key in g.members then g.keys else g.keys + [key]
  {
    if key in g.members then Groups(g.keys, g.members[key := g.members[key] + [image]])
    else Groups(g.keys + [key], g.members[key := [image]])
  }

  /** The dict `main` has built after the given images, or the exception
      `format_date` raised on one of them. */
  function Grouping(images: seq<ImageFile>, created: ImageFile -> Option<string>): Result<Groups, Error>
  {
    if images == [] then Success(Groups([], map[]))
    else
      match Grouping(images[..|images| - 1], created)
      case Failure(e) => Failure(e)
      case Success(g) =>
        var image := images[|images| - 1];
        match created(image)
        case None => Success(g)
        case Some(raw) =>
          match FormatDate(raw)
          case Failure(e) => Failure(e)
          case Success(key) => Success(Append(g, key, image))
  }

  /** Once `format_date` has raised, later images change nothing. */
  lemma {:induction false} GroupingFailureSticks(images: seq<ImageFile>, created: ImageFile -> Option<string>, n: nat)
    requires n <= |images| && Grouping(images[..n], created).Failure?
    ensures Grouping(images, created) == Grouping(images[..n], created)
    decreases |images|
  {
    if n < |images| {
      var prefix := images[..|images| - 1];
      assert prefix[..n] == images[..n];
      GroupingFailureSticks(prefix, created, n);
    } else {
      assert images[..n] == images;
    }
  }

  /** The dict built by `main` is a well-formed dict whose every list has at
      least one image. */
  lemma {:induction false} GroupingValid(images: seq<ImageFile>, created: ImageFile -> Option<string>)
    requires Grouping(images, created).Success?
    ensures Grouping(images, created).value.Valid()
    ensures forall k :: k in Grouping(images, created).value.members ==>
      Grouping(images, created).value.members[k] != []
  {
    if images != [] {
      GroupingValid(images[..|images| - 1], created);
    }
  }

  /** The loop of `main` that fills the `defaultdict`. */
  method GroupByDate(images: seq<ImageFile>, created: ImageFile -> Option<string>) returns (r: Result<Groups, Error>)
    ensures r == Grouping(images, created)
  {
    var keys: seq<Key> := [];
    var members: map<Key, seq<ImageFile>> := map[];
    var i := 0;
    while i < |images|
      invariant 0 <= i <= |images|
      invariant Grouping(images[..i], created) == Success(Groups(keys, members))
    {
      var image := images[i];
      assert images[..i + 1][..i] == images[..i];
      var date := created(image);
      if date.Some? {
        var formatted := FormatDate(date.value);
        if formatted.Failure? {
          GroupingFailureSticks(images, created, i + 1);
          return Failure(formatted.error);
        }
        var key := formatted.value;
        if key in members {
          members := members[key := members[key] + [image]];
        } else {
          keys := keys + [key];
          members := members[key := [image]];
        }
      }
      i := i + 1;
    }
    assert images[..i] == images;
    r := Success(Groups(keys, members));
  }

  // ---------------------------------------------------------------------
  // do_rename

  /** The optional `print` of "oldPath => newPath" (after `indent`) followed by
      `os.rename(oldPath, newPath)`. */
  function Announce(indent: string, oldPath: string, newPath: string, verbose: bool): seq<Event> {
    (if verbose then [Print(indent + oldPath + " => " + newPath)] else []) + [Rename(oldPath, newPath)]
  }

  /** The first n rounds of the inner loop of `do_rename` for a group of two
      or more: the i-th image (from 0) is renamed with index i + 1. */
  function IndexedEvents(dateText: string, images: seq<ImageFile>, n: nat, verbose: bool): seq<Event>
    requires n <= |images|
  {
    if n == 0 then []
    else
      var oldPath := images[n - 1].name;
      IndexedEvents(dateText, images, n - 1, verbose)
        + Announce("\t", oldPath, IndexedTarget(oldPath, dateText, n), verbose)
  }

  /** One iteration of the outer loop of `do_rename`, for one key and its
      list of images. */
  function RenameGroup(key: Key, images: seq<ImageFile>, verbose: bool): Transcript {
    if images == [] then Transcript([], Some(EmptyGroup))
    else
      match key
      case None =>
        // An f-string shows the key None as "None".
        if |images| == 1 then Transcript([], Some(TypeError))
        else Transcript(IndexedEvents("None", images, |images|, verbose), None)
      case Some(date) =>
        if |images| == 1 then
          var oldPath := images[0].name;
          Transcript(Announce("", oldPath, SingleTarget(oldPath, date), verbose), None)
        else Transcript(IndexedEvents(date, images, |images|, verbose), None)
  }

  /** Every key has a list, as in a dict iterated with `items()`. */
  predicate KeysPresent(keys: seq<Key>, members: map<Key, seq<ImageFile>>) {
    forall k :: k in keys ==> k in members
  }

  /** The outer loop of `do_rename` from the i-th key on: each group's
      round adds its effects to the log, and the first that raises ends the
      run. */
  function RenameFrom(keys: seq<Key>, members: map<Key, seq<ImageFile>>, i: nat, verbose: bool): Transcript
    requires i <= |keys| && KeysPresent(keys, members)
    decreases |keys| - i
  {
    if i == |keys| then Transcript([], None)
    else
      var step := RenameGroup(keys[i], members[keys[i]], verbose);
      if step.error.Some? then step
      else
        var rest := RenameFrom(keys, members, i + 1, verbose);
        Transcript(step.events + rest.events, rest.error)
  }

  /** What `do_rename` does for the dict with the given keys and lists. */
  function RenameAll(keys: seq<Key>, members: map<Key, seq<ImageFile>>, verbose: bool): Transcript
    requires KeysPresent(keys, members)
  {
    RenameFrom(keys, members, 0, verbose)
  }

  /** The inner loop of `do_rename`: `for i, image in enumerate(images)`. */
  method RenameIndexed(dateText: string, images: seq<ImageFile>, verbose: bool) returns (events: seq<Event>)
    ensures events == IndexedEvents(dateText, images, |images|, verbose)
  {
    events := [];
    var i := 0;
    while i < |images|
      invariant 0 <= i <= |images|
      invariant events == IndexedEvents(dateText, images, i, verbose)
    {
      var oldPath := images[i].name;
      var nameInfo := GetNameInfo(oldPath);
      var newPath := PosixPath.Join(nameInfo.0.0, dateText + "_" + Decimal(i + 1) + nameInfo.1);
      if verbose {
        events := events + [Print("\t" + oldPath + " => " + newPath)];
      }
      events := events + [Rename(oldPath, newPath)];
      i := i + 1;
    }
  }

  /** The body of the outer loop of `do_rename`, for one item of the dict. */
  method RenameOneGroup(date: Key, images: seq<ImageFile>, verbose: bool) returns (events: seq<Event>, error: Option<Error>)
    ensures Transcript(events, error) == RenameGroup(date, images, verbose)
  {
    if images == [] {
      return [], Some(EmptyGroup);
    }
    if |images| == 1 {
      var oldPath := images[0].name;
      var nameInfo := GetNameInfo(oldPath);
      var extension := nameInfo.1;
      if date.None? {
        return [], Some(TypeError);
      }
      var newPath := PosixPath.Join(nameInfo.0.0, date.value + extension);
      assert "" + oldPath == oldPath;
      events := [];
      if verbose {
        events := events + [Print(oldPath + " => " + newPath)];
      }
      events := events + [Rename(oldPath, newPath)];
      error := None;
    } else {
      events := RenameIndexed(if date.Some? then date.value else "None", images, verbose);
      error := None;
    }
  }

  /** `do_rename(data, verbose)`: the outer loop over the dict's items in
      insertion order. */
  method DoRename(data: Groups, verbose: bool) returns (events: seq<Event>, error: Option<Error>)
    requires KeysPresent(data.keys, data.members)
    ensures Transcript(events, error) == RenameAll(data.keys, data.members, verbose)
  {
    events, error := [], None;
    for i := 0 to |data.keys|
      invariant error.None?
      invariant RenameAll(data.keys, data.members, verbose)
        == Transcript(events + RenameFrom(data.keys, data.members, i, verbose).events,
                      RenameFrom(data.keys, data.members, i, verbose).error)
    {
      var date := data.keys[i];
      var groupEvents, groupError := RenameOneGroup(date, data.members[date], verbose);
      ghost var rest := RenameFrom(data.keys, data.members, i + 1, verbose);
      if groupError.Some? {
        return events + groupEvents, groupError;
      }
      assert events + (groupEvents + rest.events) == (events + groupEvents) + rest.events;
      events := events + groupEvents;
    }
    assert events + [] == events;
  }

  // ---------------------------------------------------------------------
  // main

  /** `main(args)`: group the images by date, then rename them. An exception
      while grouping ends the run before anything is renamed. */
  function Execute(images: seq<ImageFile>, created: ImageFile -> Option<string>, verbose: bool): Transcript {
    match Grouping(images, created)
    case Failure(e) => Transcript([], Some(e))
    case Success(g) =>
      GroupingValid(images, created);
      RenameAll(g.keys, g.members, verbose)
  }

  method RunMain(images: seq<ImageFile>, created: ImageFile -> Option<string>, verbose: bool)
    returns (events: seq<Event>, error: Option<Error>)
    ensures Transcript(events, error) == Execute(images, created, verbose)
  {
    var grouped := GroupByDate(images, created);
    if grouped.Failure? {
      return [], Some(grouped.error);
    }
    GroupingValid(images, created);
    events, error := DoRename(grouped.value, verbose);
  }
}
