/**
 * What the script promises about its dates, its groups and its renames,
 * proved about the model in module RenameImage.
 */
module RenameImageProperties {
  import opened Wrappers
  import opened Text
  import PosixPath
  import opened RenameImage

  // ---------------------------------------------------------------------
  // format_date

  /** For a string that reads as whitespace `s[..i]`, then a token
      `s[i..j]`, then whitespace or the end, `format_date` returns that
      token with every ':' turned into '-'. */
  lemma FormatDateFirstToken(s: string, i: nat, j: nat)
    requires i < j <= |s|
    requires AllSpace(s[..i])
    requires NoSpace(s[i..j])
    requires j == |s| || IsSpace(s[j])
    ensures FormatDate(s) == Success(Some(Replace(s[i..j], ':', '-')))
  {
    SplitFirst(s, i, j);
  }

  /** A date `format_date` produced is its own normal form: formatting it
      again gives it back unchanged. */
  lemma FormatDateIdempotent(s: string)
    requires FormatDate(s).Success? && FormatDate(s).value.Some?
    ensures FormatDate(FormatDate(s).value.value) == FormatDate(s)
  {
    var d := FormatDate(s).value.value;
    SplitSingleToken(d);
    ReplaceAbsent(d, ':', '-');
  }

  /** The EXIF form of a date and time becomes the date alone, with '-'
      between its fields. */
  lemma FormatDateExample()
    ensures FormatDate("2023:05:01 10:22:00") == Success(Some("2023-05-01"))
  {
    var s := "2023:05:01 10:22:00";
    ExampleSlices(s);
    FormatDateFirstToken(s, 0, 10);
    ExampleReplace(s[0..10]);
  }

  lemma ExampleSlices(s: string)
    requires s == "2023:05:01 10:22:00"
    ensures |s| == 19 && AllSpace(s[..0]) && NoSpace(s[0..10]) && IsSpace(s[10])
    ensures s[0..10] == "2023:05:01"
  {
    var token := s[0..10];
    assert token == "2023:05:01";
    forall k | 0 <= k < |token| ensures !IsSpace(token[k]) {
      assert IsDigit(token[k]) || token[k] == ':';
    }
  }

  lemma ExampleReplace(t: string)
    requires t == "2023:05:01"
    ensures Replace(t, ':', '-') == "2023-05-01"
  {
    var r := Replace(t, ':', '-');
    assert |r| == 10;
    forall k | 0 <= k < 10 ensures r[k] == "2023-05-01"[k] {
      assert r[k] == if t[k] == ':' then '-' else t[k];
    }
  }

  // ---------------------------------------------------------------------
  // The grouping loop of main

  /** The image has a date and `format_date` turns it into `key`. */
  predicate HasKey(image: ImageFile, created: ImageFile -> Option<string>, key: Key) {
    created(image).Some? && FormatDate(created(image).value) == Success(key)
  }

  /** The image has a date on which `format_date` raises. */
  predicate Raises(image: ImageFile, created: ImageFile -> Option<string>) {
    created(image).Some? && FormatDate(created(image).value).Failure?
  }

  /** The images with the given key, in input order. */
  function Members(images: seq<ImageFile>, created: ImageFile -> Option<string>, key: Key): seq<ImageFile> {
    if images == [] then []
    else
      var last := images[|images| - 1];
      Members(images[..|images| - 1], created, key) + (if HasKey(last, created, key) then [last] else [])
  }

  /** The images that have a date at all, in input order. */
  function Dated(images: seq<ImageFile>, created: ImageFile -> Option<string>): seq<ImageFile> {
    if images == [] then []
    else
      var last := images[|images| - 1];
      Dated(images[..|images| - 1], created) + (if created(last).Some? then [last] else [])
  }

  /** One step of the loop raises exactly when the steps before it did, or
      the new image has a date `format_date` raises on. */
  lemma GroupingStepFails(images: seq<ImageFile>, created: ImageFile -> Option<string>)
    requires images != []
    ensures var prefix, last := images[..|images| - 1], images[|images| - 1];
      && (Grouping(images, created).Failure? <==> Grouping(prefix, created).Failure? || Raises(last, created))
      && (Grouping(images, created).Failure? ==>
            Grouping(images, created) == Grouping(prefix, created) ||
            Grouping(images, created) == Failure(FormatDate(created(last).value).error))
  {
  }

  /** Grouping raises exactly when some image has a date made of whitespace
      only, and what it raises is `IndexError`. */
  lemma {:induction false} GroupingFails(images: seq<ImageFile>, created: ImageFile -> Option<string>)
    ensures Grouping(images, created).Failure? <==> exists t :: 0 <= t < |images| && Raises(images[t], created)
    ensures Grouping(images, created).Failure? ==> Grouping(images, created).error == IndexError
  {
    if images != [] {
      var prefix := images[..|images| - 1];
      GroupingFails(prefix, created);
      GroupingStepFails(images, created);
      RaisesSnoc(images, created);
    }
  }

  /** Some image raises exactly when one before the last does, or the last
      one does. */
  lemma RaisesSnoc(images: seq<ImageFile>, created: ImageFile -> Option<string>)
    requires images != []
    ensures var prefix := images[..|images| - 1];
      (exists t :: 0 <= t < |images| && Raises(images[t], created)) <==>
      (exists t :: 0 <= t < |prefix| && Raises(prefix[t], created)) || Raises(images[|images| - 1], created)
  {
    var prefix := images[..|images| - 1];
    if exists t :: 0 <= t < |prefix| && Raises(prefix[t], created) {
      var t :| 0 <= t < |prefix| && Raises(prefix[t], created);
      assert images[t] == prefix[t];
    }
    if exists t :: 0 <= t < |images| && Raises(images[t], created) {
      var t :| 0 <= t < |images| && Raises(images[t], created);
      if t < |prefix| {
        assert prefix[t] == images[t];
      }
    }
  }

  /** Each list of the dict holds exactly the images with its key, in input
      order, and the dict has a list for a key exactly when some image has
      that key. */
  lemma {:induction false} GroupingIsFilter(images: seq<ImageFile>, created: ImageFile -> Option<string>, key: Key)
    requires Grouping(images, created).Success?
    ensures var g := Grouping(images, created).value;
      && (key in g.members <==> Members(images, created, key) != [])
      && (key in g.members ==> g.members[key] == Members(images, created, key))
  {
    if images != [] {
      var prefix := images[..|images| - 1];
      assert Grouping(prefix, created).Success?;
      GroupingIsFilter(prefix, created, key);
    }
  }

  /** The lists of the dict from the i-th key on, one after another in key
      order: the order in which `do_rename` visits the images. */
  function Flatten(keys: seq<Key>, members: map<Key, seq<ImageFile>>, i: nat): seq<ImageFile>
    requires i <= |keys| && KeysPresent(keys, members)
    decreases |keys| - i
  {
    if i == |keys| then [] else members[keys[i]] + Flatten(keys, members, i + 1)
  }

  /** Appending to the list of a key that occurs once among the keys adds
      that image once to the flattened lists. */
  lemma {:induction false} FlattenGrow(keys: seq<Key>, members: map<Key, seq<ImageFile>>, key: Key, image: ImageFile, i: nat)
    requires i <= |keys| && KeysPresent(keys, members) && key in members
    requires forall a, b :: 0 <= a < b < |keys| ==> keys[a] != keys[b]
    ensures KeysPresent(keys, members[key := members[key] + [image]])
    ensures multiset(Flatten(keys, members[key := members[key] + [image]], i))
      == multiset(Flatten(keys, members, i)) + (if key in keys[i..] then multiset{image} else multiset{})
    decreases |keys| - i
  {
    var grown := members[key := members[key] + [image]];
    if i < |keys| {
      FlattenGrow(keys, members, key, image, i + 1);
      assert keys[i..] == [keys[i]] + keys[i + 1..];
      if keys[i] == key {
        assert key !in keys[i + 1..] by {
          forall b | i + 1 <= b < |keys| ensures keys[b] != key {
            assert keys[i] != keys[b];
          }
        }
      }
    }
  }

  /** A key new to the dict adds its list after all the others. */
  lemma {:induction false} FlattenNewKey(keys: seq<Key>, members: map<Key, seq<ImageFile>>, key: Key, list: seq<ImageFile>, i: nat)
    requires i <= |keys| && KeysPresent(keys, members) && key !in keys
    ensures KeysPresent(keys + [key], members[key := list])
    ensures Flatten(keys + [key], members[key := list], i) == Flatten(keys, members, i) + list
    decreases |keys| - i
  {
    if i < |keys| {
      FlattenNewKey(keys, members, key, list, i + 1);
      assert (keys + [key])[i] == keys[i];
    } else {
      assert (keys + [key])[i] == key;
    }
  }

  /** The dict's lists, taken in key order, hold every image that has a date
      once and nothing else: a partition of those images. */
  lemma {:induction false} GroupingPartition(images: seq<ImageFile>, created: ImageFile -> Option<string>)
    requires Grouping(images, created).Success?
    ensures var g := Grouping(images, created).value;
      && KeysPresent(g.keys, g.members)
      && multiset(Flatten(g.keys, g.members, 0)) == multiset(Dated(images, created))
  {
    GroupingValid(images, created);
    if images != [] {
      var prefix := images[..|images| - 1];
      var image := images[|images| - 1];
      assert Grouping(prefix, created).Success?;
      GroupingValid(prefix, created);
      GroupingPartition(prefix, created);
      var g := Grouping(prefix, created).value;
      match created(image)
      case None =>
      case Some(raw) =>
        var key := FormatDate(raw).value;
        if key in g.members {
          FlattenGrow(g.keys, g.members, key, image, 0);
          assert g.keys[0..] == g.keys;
        } else {
          FlattenNewKey(g.keys, g.members, key, [image], 0);
        }
    }
  }

  /** The index of the first image with the given key, or the number of
      images when none has it. */
  function FirstIndex(images: seq<ImageFile>, created: ImageFile -> Option<string>, key: Key): (r: nat)
    ensures r <= |images|
  {
    if images == [] then 0
    else
      var prefix := images[..|images| - 1];
      var f := FirstIndex(prefix, created, key);
      if f < |prefix| then f
      else if HasKey(images[|images| - 1], created, key) then |images| - 1
      else |images|
  }

  /** `FirstIndex` finds the first image with the key, and finds one exactly
      when some image has it. */
  lemma {:induction false} FirstIndexIsFirst(images: seq<ImageFile>, created: ImageFile -> Option<string>, key: Key)
    ensures var f := FirstIndex(images, created, key);
      && (f < |images| ==> HasKey(images[f], created, key))
      && (forall u :: 0 <= u < f && u < |images| ==> !HasKey(images[u], created, key))
      && (f < |images| <==> Members(images, created, key) != [])
  {
    if images != [] {
      var prefix := images[..|images| - 1];
      FirstIndexIsFirst(prefix, created, key);
      assert forall u :: 0 <= u < |prefix| ==> prefix[u] == images[u];
    }
  }

  /** The keys of the dict, in the order `do_rename` visits them, are the
      dates in the order of their first appearance among the images. */
  lemma {:induction false} GroupingKeyOrder(images: seq<ImageFile>, created: ImageFile -> Option<string>)
    requires Grouping(images, created).Success?
    ensures var keys := Grouping(images, created).value.keys;
      && (forall i :: 0 <= i < |keys| ==> FirstIndex(images, created, keys[i]) < |images|)
      && (forall i, j :: 0 <= i < j < |keys| ==>
            FirstIndex(images, created, keys[i]) < FirstIndex(images, created, keys[j]))
  {
    if images != [] {
      var prefix := images[..|images| - 1];
      assert Grouping(prefix, created).Success?;
      GroupingKeyOrder(prefix, created);
      var before := Grouping(prefix, created).value;
      var keys := Grouping(images, created).value.keys;
      GroupingValid(prefix, created);
      forall i | 0 <= i < |before.keys|
        ensures FirstIndex(images, created, before.keys[i]) == FirstIndex(prefix, created, before.keys[i])
      {
      }
      if |keys| > |before.keys| {
        var key := keys[|keys| - 1];
        GroupingIsFilter(prefix, created, key);
        FirstIndexIsFirst(prefix, created, key);
        assert FirstIndex(images, created, key) == |prefix|;
      }
    }
  }

  // ---------------------------------------------------------------------
  // The log of do_rename

  /** The calls `os.rename(src, dst)` of a log, as pairs, in order. */
  function Renames(events: seq<Event>): seq<(string, string)> {
    if events == [] then []
    else
      (match events[0]
       case Rename(src, dst) => [(src, dst)]
       case Print(_) => [])
      + Renames(events[1..])
  }

  /** The sources of a list of renames. */
  function Sources(renames: seq<(string, string)>): seq<string> {
    if renames == [] then [] else [renames[0].0] + Sources(renames[1..])
  }

  /** The paths of a list of images. */
  function Names(images: seq<ImageFile>): seq<string> {
    if images == [] then [] else [images[0].name] + Names(images[1..])
  }

  /** Nothing but renames: the log when `verbose` is off. */
  predicate Quiet(events: seq<Event>) {
    forall t :: 0 <= t < |events| ==> events[t].Rename?
  }

  /** The log alternates lines "<indent><src> => <dst>" with the renames
      of `src` to `dst` they announce, the line first. */
  predicate AnnouncedWith(indent: string, events: seq<Event>)
    decreases |events|
  {
    events == [] ||
    (&& |events| >= 2
     && events[1].Rename?
     && events[0] == Print(indent + events[1].src + " => " + events[1].dst)
     && AnnouncedWith(indent, events[2..]))
  }

  /** As `AnnouncedWith`, each line indented by nothing or by a tab. */
  predicate Announced(events: seq<Event>)
    decreases |events|
  {
    events == [] ||
    (&& |events| >= 2
     && events[1].Rename?
     && (|| events[0] == Print(events[1].src + " => " + events[1].dst)
         || events[0] == Print("\t" + events[1].src + " => " + events[1].dst))
     && Announced(events[2..]))
  }

  lemma {:induction false} RenamesConcat(a: seq<Event>, b: seq<Event>)
    ensures Renames(a + b) == Renames(a) + Renames(b)
    decreases |a|
  {
    if a != [] {
      assert (a + b)[1..] == a[1..] + b;
      RenamesConcat(a[1..], b);
    } else {
      assert a + b == b;
    }
  }

  lemma {:induction false} SourcesConcat(a: seq<(string, string)>, b: seq<(string, string)>)
    ensures Sources(a + b) == Sources(a) + Sources(b)
    decreases |a|
  {
    if a != [] {
      assert (a + b)[1..] == a[1..] + b;
      SourcesConcat(a[1..], b);
    } else {
      assert a + b == b;
    }
  }

  lemma {:induction false} NamesConcat(a: seq<ImageFile>, b: seq<ImageFile>)
    ensures Names(a + b) == Names(a) + Names(b)
    decreases |a|
  {
    if a != [] {
      assert (a + b)[1..] == a[1..] + b;
      NamesConcat(a[1..], b);
    } else {
      assert a + b == b;
    }
  }

  lemma {:induction false} AnnouncedWithConcat(indent: string, a: seq<Event>, b: seq<Event>)
    requires AnnouncedWith(indent, a) && AnnouncedWith(indent, b)
    ensures AnnouncedWith(indent, a + b)
    decreases |a|
  {
    if a != [] {
      assert (a + b)[2..] == a[2..] + b;
      AnnouncedWithConcat(indent, a[2..], b);
    } else {
      assert a + b == b;
    }
  }

  lemma {:induction false} AnnouncedConcat(a: seq<Event>, b: seq<Event>)
    requires Announced(a) && Announced(b)
    ensures Announced(a + b)
    decreases |a|
  {
    if a != [] {
      assert (a + b)[2..] == a[2..] + b;
      AnnouncedConcat(a[2..], b);
    } else {
      assert a + b == b;
    }
  }

  /** A log announced with no indent or a tab is announced. */
  lemma {:induction false} AnnouncedWithIsAnnounced(indent: string, events: seq<Event>)
    requires indent == "" || indent == "\t"
    requires AnnouncedWith(indent, events)
    ensures Announced(events)
    decreases |events|
  {
    if events != [] {
      AnnouncedWithIsAnnounced(indent, events[2..]);
      if indent == "" {
        assert indent + events[1].src == events[1].src;
      }
    }
  }

  /** One announced rename: its only rename is `oldPath` to `newPath`, with
      the line before it when `verbose` is on. */
  lemma AnnounceFacts(indent: string, oldPath: string, newPath: string, verbose: bool)
    ensures var ev := Announce(indent, oldPath, newPath, verbose);
      && Renames(ev) == [(oldPath, newPath)]
      && (verbose ==> AnnouncedWith(indent, ev))
      && (!verbose ==> Quiet(ev))
  {
    var ev := Announce(indent, oldPath, newPath, verbose);
    assert Renames([]) == [];
    if verbose {
      assert ev[1..] == [Rename(oldPath, newPath)];
      assert ev[2..] == [];
    }
  }

  /** The renames a group of two or more should make: the i-th image (from
      0) to `<dir>/<date>_<i + 1><ext>` of its own path. */
  function IndexedPlan(dateText: string, images: seq<ImageFile>, n: nat): (plan: seq<(string, string)>)
    requires n <= |images|
    ensures |plan| == n
  {
    seq(n, t requires 0 <= t < n => (images[t].name, IndexedTarget(images[t].name, dateText, t + 1)))
  }

  /** A group of two or more makes exactly the planned renames, in order. */
  lemma {:induction false} IndexedRenamesPlan(dateText: string, images: seq<ImageFile>, n: nat, verbose: bool)
    requires n <= |images|
    ensures Renames(IndexedEvents(dateText, images, n, verbose)) == IndexedPlan(dateText, images, n)
  {
    if n > 0 {
      var oldPath := images[n - 1].name;
      var newPath := IndexedTarget(oldPath, dateText, n);
      var before := IndexedEvents(dateText, images, n - 1, verbose);
      IndexedRenamesPlan(dateText, images, n - 1, verbose);
      RenamesConcat(before, Announce("\t", oldPath, newPath, verbose));
      AnnounceFacts("\t", oldPath, newPath, verbose);
      IndexedPlanSnoc(dateText, images, n);
    }
  }

  lemma IndexedPlanSnoc(dateText: string, images: seq<ImageFile>, n: nat)
    requires 0 < n <= |images|
    ensures IndexedPlan(dateText, images, n)
      == IndexedPlan(dateText, images, n - 1) + [(images[n - 1].name, IndexedTarget(images[n - 1].name, dateText, n))]
  {
    var whole, before := IndexedPlan(dateText, images, n), IndexedPlan(dateText, images, n - 1);
    assert forall t | 0 <= t < n - 1 :: whole[t] == before[t];
  }

  /** In a group of two or more, the i-th image (from 0) is renamed to
      `<dir>/<date>_<i + 1><ext>` of its own path, one rename per image, in
      the group's order. */
  lemma IndexedRenames(dateText: string, images: seq<ImageFile>, verbose: bool, t: nat)
    requires t < |images|
    ensures var r := Renames(IndexedEvents(dateText, images, |images|, verbose));
      |r| == |images| && r[t] == (images[t].name, IndexedTarget(images[t].name, dateText, t + 1))
  {
    IndexedRenamesPlan(dateText, images, |images|, verbose);
  }

  /** Announcing one more rename adds its old path to the sources. */
  lemma SourcesAnnounce(before: seq<Event>, oldPath: string, newPath: string, verbose: bool)
    ensures Sources(Renames(before + Announce("\t", oldPath, newPath, verbose)))
      == Sources(Renames(before)) + [oldPath]
  {
    RenamesConcat(before, Announce("\t", oldPath, newPath, verbose));
    AnnounceFacts("\t", oldPath, newPath, verbose);
    SourcesConcat(Renames(before), [(oldPath, newPath)]);
  }

  /** The paths of a prefix one longer end in the new image's path. */
  lemma NamesSnoc(images: seq<ImageFile>, n: nat)
    requires 0 < n <= |images|
    ensures Names(images[..n]) == Names(images[..n - 1]) + [images[n - 1].name]
  {
    assert images[..n] == images[..n - 1] + [images[n - 1]];
    NamesConcat(images[..n - 1], [images[n - 1]]);
  }

  /** The images of a group of two or more are renamed in the group's order,
      each once. */
  lemma {:induction false} IndexedSources(dateText: string, images: seq<ImageFile>, n: nat, verbose: bool)
    requires n <= |images|
    ensures Sources(Renames(IndexedEvents(dateText, images, n, verbose))) == Names(images[..n])
  {
    if n > 0 {
      var oldPath := images[n - 1].name;
      IndexedSources(dateText, images, n - 1, verbose);
      SourcesAnnounce(IndexedEvents(dateText, images, n - 1, verbose), oldPath, IndexedTarget(oldPath, dateText, n), verbose);
      NamesSnoc(images, n);
    } else {
      assert Sources([]) == [];
    }
  }

  /** In a group of two or more, a tab-indented line comes just before each
      rename when `verbose` is on, and only renames when it is off. */
  lemma {:induction false} IndexedAnnounced(dateText: string, images: seq<ImageFile>, n: nat, verbose: bool)
    requires n <= |images|
    ensures verbose ==> AnnouncedWith("\t", IndexedEvents(dateText, images, n, verbose))
    ensures !verbose ==> Quiet(IndexedEvents(dateText, images, n, verbose))
  {
    if n > 0 {
      var oldPath := images[n - 1].name;
      var newPath := IndexedTarget(oldPath, dateText, n);
      var before := IndexedEvents(dateText, images, n - 1, verbose);
      var last := Announce("\t", oldPath, newPath, verbose);
      IndexedAnnounced(dateText, images, n - 1, verbose);
      AnnounceFacts("\t", oldPath, newPath, verbose);
      if verbose {
        AnnouncedWithConcat("\t", before, last);
      }
    }
  }

  // ---------------------------------------------------------------------
  // One group of do_rename

  /** The groups on which `do_rename` raises: an empty list, and a single
      image under the key `None`, whose "date" cannot be concatenated. */
  predicate GroupFails(key: Key, images: seq<ImageFile>) {
    images == [] || (|images| == 1 && key.None?)
  }

  /** A group raises exactly when it fails, with `EmptyGroup` for an empty
      list and `TypeError` otherwise, and then has done nothing. */
  lemma GroupOutcome(key: Key, images: seq<ImageFile>, verbose: bool)
    ensures var r := RenameGroup(key, images, verbose);
      && (r.error.Some? <==> GroupFails(key, images))
      && (r.error == Some(EmptyGroup) <==> images == [])
      && (r.error == Some(TypeError) <==> |images| == 1 && key.None?)
      && (r.error.Some? ==> r.events == [])
  {
  }

  /** The text a group's key stands for in its new names: the date, or
      "None" as an f-string shows the key `None`. */
  function KeyText(key: Key): string {
    match key
    case None => "None"
    case Some(date) => date
  }

  /** The renames of a group that does not fail: one per image, in the
      group's order; a single image becomes `<dir>/<date><ext>` and the i-th
      of a larger group `<dir>/<date>_<i + 1><ext>`. */
  lemma GroupRenames(key: Key, images: seq<ImageFile>, verbose: bool)
    requires !GroupFails(key, images)
    ensures var r := Renames(RenameGroup(key, images, verbose).events);
      && |r| == |images|
      && Sources(r) == Names(images)
      && (|images| == 1 ==> r == [(images[0].name, SingleTarget(images[0].name, key.value))])
      && (|images| > 1 ==> forall t :: 0 <= t < |images| ==>
            r[t] == (images[t].name, IndexedTarget(images[t].name, KeyText(key), t + 1)))
  {
    var text := KeyText(key);
    if |images| == 1 {
      var oldPath := images[0].name;
      AnnounceFacts("", oldPath, SingleTarget(oldPath, key.value), verbose);
      assert Sources([(oldPath, SingleTarget(oldPath, key.value))]) == [oldPath] + Sources([]);
      assert Names(images) == [oldPath] + Names([]);
    } else {
      assert RenameGroup(key, images, verbose).events == IndexedEvents(text, images, |images|, verbose);
      IndexedRenamesPlan(text, images, |images|, verbose);
      IndexedSources(text, images, |images|, verbose);
      assert images[..|images|] == images;
    }
  }

  /** `verbose` only adds lines: a group makes the same renames either way. */
  lemma GroupRenamesIgnoreVerbose(key: Key, images: seq<ImageFile>)
    ensures Renames(RenameGroup(key, images, true).events) == Renames(RenameGroup(key, images, false).events)
  {
    if !GroupFails(key, images) {
      if |images| == 1 {
        var oldPath := images[0].name;
        AnnounceFacts("", oldPath, SingleTarget(oldPath, key.value), true);
        AnnounceFacts("", oldPath, SingleTarget(oldPath, key.value), false);
      } else {
        IndexedRenamesPlan(KeyText(key), images, |images|, true);
        IndexedRenamesPlan(KeyText(key), images, |images|, false);
      }
    }
  }

  /** With `verbose` on, a group's log announces each rename on the line
      before it, without indentation for a single image and after a tab in a
      larger group; with `verbose` off it holds renames only. */
  lemma GroupLog(key: Key, images: seq<ImageFile>, verbose: bool)
    ensures var ev := RenameGroup(key, images, verbose).events;
      && (verbose && |images| == 1 ==> AnnouncedWith("", ev))
      && (verbose && |images| > 1 ==> AnnouncedWith("\t", ev))
      && (verbose ==> Announced(ev))
      && (!verbose ==> Quiet(ev))
  {
    var ev := RenameGroup(key, images, verbose).events;
    if !GroupFails(key, images) {
      if |images| == 1 {
        var oldPath := images[0].name;
        AnnounceFacts("", oldPath, SingleTarget(oldPath, key.value), verbose);
        if verbose {
          AnnouncedWithIsAnnounced("", ev);
        }
      } else {
        IndexedAnnounced(KeyText(key), images, |images|, verbose);
        if verbose {
          AnnouncedWithIsAnnounced("\t", ev);
        }
      }
    }
  }

  // ---------------------------------------------------------------------
  // The new names of a larger group are distinct

  /** A longer prefix that ends with '/' holds more '/' than a shorter one. */
  lemma SlashCountGrows(r: string, i: nat, j: nat)
    requires i <= |r| && j <= |r|
    ensures i < j && r[j - 1] == '/' ==> multiset(r[..i])['/'] < multiset(r[..j])['/']
  {
    if i < j {
      assert r[..j] == r[..i] + r[i..j];
      assert r[i..j][j - 1 - i] == r[j - 1];
    }
  }

  /** Decimal digits followed by an extension hold no '/'. */
  lemma NoSlashAfterDigits(digits: string, ext: string)
    requires AllDigits(digits) && PosixPath.IsExtension(ext)
    ensures multiset(digits + ext)['/'] == 0
  {
    assert forall t :: 0 <= t < |digits + ext| ==> (digits + ext)[t] != '/' by {
      forall t | 0 <= t < |digits + ext|
        ensures (digits + ext)[t] != '/'
      {
        if t >= |digits| {
          assert (digits + ext)[t] == ext[t - |digits|];
        }
      }
    }
  }

  /** Where digits are followed by an extension, the digits are the whole
      run of digits: an extension starts with '.' if it starts at all. */
  lemma DigitsBeforeExtension(d1: string, e1: string, d2: string, e2: string)
    requires AllDigits(d1) && AllDigits(d2)
    requires PosixPath.IsExtension(e1) && PosixPath.IsExtension(e2)
    requires d1 + e1 == d2 + e2
    ensures d1 == d2
  {
    var s := d1 + e1;
    DigitRun(d1, e1, |d2|);
    DigitRun(d2, e2, |d1|);
    assert forall x :: 0 <= x < |d2| ==> s[x] == d2[x];
    assert forall x :: 0 <= x < |d1| ==> s[x] == d1[x];
    assert d1 == s[..|d1|];
  }

  /** The first i characters of digits followed by an extension are all
      digits exactly when they lie within the digits. */
  lemma DigitRun(d: string, e: string, i: nat)
    requires AllDigits(d) && PosixPath.IsExtension(e) && i <= |d + e|
    ensures (forall x :: 0 <= x < i ==> IsDigit((d + e)[x])) <==> i <= |d|
  {
    if i > |d| {
      assert (d + e)[|d|] == e[0];
    }
  }

  /** The '/' of `<mid><digits><ext>` are those of `mid`. */
  lemma SlashesOfMid(mid: string, digits: string, ext: string)
    requires AllDigits(digits) && PosixPath.IsExtension(ext)
    ensures multiset(mid + digits + ext)['/'] == multiset(mid)['/']
  {
    NoSlashAfterDigits(digits, ext);
    Associative(mid, digits, ext);
    assert multiset(mid + (digits + ext)) == multiset(mid) + multiset(digits + ext);
  }

  /** Two prefixes of the same string that are empty or end with '/' and are
      followed by the same number of '/' are the same prefix. */
  lemma SlashPrefixUnique(r: string, pre1: string, t1: string, pre2: string, t2: string)
    requires r == pre1 + t1 && r == pre2 + t2
    requires pre1 == [] || pre1[|pre1| - 1] == '/'
    requires pre2 == [] || pre2[|pre2| - 1] == '/'
    requires multiset(t1)['/'] == multiset(t2)['/']
    ensures |pre1| == |pre2|
  {
    assert multiset(r) == multiset(pre1) + multiset(t1);
    assert multiset(r) == multiset(pre2) + multiset(t2);
    assert pre1 == r[..|pre1|] && pre2 == r[..|pre2|];
    assert pre1 != [] ==> r[|pre1| - 1] == '/';
    assert pre2 != [] ==> r[|pre2| - 1] == '/';
    SlashCountGrows(r, |pre1|, |pre2|);
    SlashCountGrows(r, |pre2|, |pre1|);
  }

  /** A path `<prefix><mid><digits><ext>` whose prefix is empty or ends with
      '/' determines its digits: the '/' of the prefix and of `mid` are all
      the '/' there are, so the prefix is fixed by their number. */
  lemma ShapeDeterminesDigits(r: string, pre1: string, pre2: string, mid: string,
                              d1: string, d2: string, e1: string, e2: string)
    requires r == pre1 + (mid + d1 + e1) && r == pre2 + (mid + d2 + e2)
    requires pre1 == [] || pre1[|pre1| - 1] == '/'
    requires pre2 == [] || pre2[|pre2| - 1] == '/'
    requires AllDigits(d1) && AllDigits(d2)
    requires PosixPath.IsExtension(e1) && PosixPath.IsExtension(e2)
    ensures d1 == d2
  {
    var t1, t2 := mid + d1 + e1, mid + d2 + e2;
    SlashesOfMid(mid, d1, e1);
    SlashesOfMid(mid, d2, e2);
    SlashPrefixUnique(r, pre1, t1, pre2, t2);
    SameRest(r, pre1, t1, pre2, t2);
    Associative(mid, d1, e1);
    Associative(mid, d2, e2);
    SameRest(t1, mid, d1 + e1, mid, d2 + e2);
    DigitsBeforeExtension(d1, e1, d2, e2);
  }

  lemma Associative<T>(a: seq<T>, b: seq<T>, c: seq<T>)
    ensures a + b + c == a + (b + c)
  {
  }

  /** Two ways to write a sequence with prefixes of the same length agree on
      what follows the prefix. */
  lemma SameRest<T>(r: seq<T>, a: seq<T>, x: seq<T>, b: seq<T>, y: seq<T>)
    requires r == a + x && r == b + y && |a| == |b|
    ensures x == y
  {
    assert x == r[|a|..];
    assert y == r[|b|..];
  }

  /** A new name `<dir>/<date>_<k><ext>` of a larger group is some prefix
      that is empty or ends with '/', then `<date>_<k>`, then an extension. */
  lemma IndexedTargetParts(p: string, dateText: string, k: nat) returns (pre: string, ext: string)
    ensures IndexedTarget(p, dateText, k) == pre + (dateText + "_" + Decimal(k) + ext)
    ensures pre == [] || pre[|pre| - 1] == '/'
    ensures PosixPath.IsExtension(ext)
  {
    ext := GetNameInfo(p).1;
    GetNameInfoParts(p);
    pre := PosixPath.JoinParts(GetNameInfo(p).0.0, dateText + "_" + Decimal(k) + ext);
  }

  /** Two names of that shape with the same date text are equal only for
      the same k. */
  lemma SameShapeSameIndex(pre1: string, e1: string, pre2: string, e2: string, dateText: string, k: nat, m: nat)
    requires pre1 == [] || pre1[|pre1| - 1] == '/'
    requires pre2 == [] || pre2[|pre2| - 1] == '/'
    requires PosixPath.IsExtension(e1) && PosixPath.IsExtension(e2)
    ensures pre1 + (dateText + "_" + Decimal(k) + e1) == pre2 + (dateText + "_" + Decimal(m) + e2) ==> k == m
  {
    var r := pre1 + (dateText + "_" + Decimal(k) + e1);
    if r == pre2 + (dateText + "_" + Decimal(m) + e2) {
      ShapeDeterminesDigits(r, pre1, pre2, dateText + "_", Decimal(k), Decimal(m), e1, e2);
      DecimalInjective(k, m);
    }
  }

  /** The names `<dir>/<date>_<k><ext>` given to two images with the same
      date text are equal only for equal k, whatever the two paths. */
  lemma IndexedTargetInjective(p: string, q: string, dateText: string, k: nat, m: nat)
    ensures IndexedTarget(p, dateText, k) == IndexedTarget(q, dateText, m) ==> k == m
  {
    var pre1, e1 := IndexedTargetParts(p, dateText, k);
    var pre2, e2 := IndexedTargetParts(q, dateText, m);
    SameShapeSameIndex(pre1, e1, pre2, e2, dateText, k, m);
  }

  /** No two images of a group of two or more are given the same new name,
      even when the same file was passed twice. */
  lemma GroupTargetsDistinct(key: Key, images: seq<ImageFile>, verbose: bool, a: nat, b: nat)
    requires |images| > 1 && a < b < |images|
    ensures var r := Renames(RenameGroup(key, images, verbose).events);
      |r| == |images| && r[a].1 != r[b].1
  {
    GroupRenames(key, images, verbose);
    IndexedTargetInjective(images[a].name, images[b].name, KeyText(key), a + 1, b + 1);
  }

  // ---------------------------------------------------------------------
  // The outer loop of do_rename

  /** No group from the i-th key up to (not including) the j-th fails. */
  predicate NoneFail(keys: seq<Key>, members: map<Key, seq<ImageFile>>, i: nat, j: nat)
    requires i <= j <= |keys| && KeysPresent(keys, members)
  {
    forall t :: i <= t < j ==> !GroupFails(keys[t], members[keys[t]])
  }

  /** The logs of the groups from the i-th key up to (not including) the
      j-th, one after another. */
  function EventsBetween(keys: seq<Key>, members: map<Key, seq<ImageFile>>, i: nat, j: nat, verbose: bool): seq<Event>
    requires i <= j <= |keys| && KeysPresent(keys, members)
    decreases j - i
  {
    if i == j then []
    else RenameGroup(keys[i], members[keys[i]], verbose).events + EventsBetween(keys, members, i + 1, j, verbose)
  }

  /** The loop from the i-th key on ends without an exception exactly when
      none of the remaining groups fails, and then its log is theirs. */
  lemma {:induction false} RenameFromSucceeds(keys: seq<Key>, members: map<Key, seq<ImageFile>>, i: nat, verbose: bool)
    requires i <= |keys| && KeysPresent(keys, members)
    ensures RenameFrom(keys, members, i, verbose).error.None? <==> NoneFail(keys, members, i, |keys|)
    ensures NoneFail(keys, members, i, |keys|) ==>
      RenameFrom(keys, members, i, verbose).events == EventsBetween(keys, members, i, |keys|, verbose)
    decreases |keys| - i
  {
    if i < |keys| {
      GroupOutcome(keys[i], members[keys[i]], verbose);
      RenameFromSucceeds(keys, members, i + 1, verbose);
    }
  }

  /** When the j-th group is the first that fails, the loop raises its
      exception after the logs of the groups before it: the renames already
      made stay made, and nothing after it happens. */
  lemma {:induction false} RenameFromStops(keys: seq<Key>, members: map<Key, seq<ImageFile>>, i: nat, j: nat, verbose: bool)
    requires i <= j < |keys| && KeysPresent(keys, members)
    requires NoneFail(keys, members, i, j) && GroupFails(keys[j], members[keys[j]])
    ensures RenameFrom(keys, members, i, verbose)
      == Transcript(EventsBetween(keys, members, i, j, verbose), RenameGroup(keys[j], members[keys[j]], verbose).error)
    decreases j - i
  {
    GroupOutcome(keys[i], members[keys[i]], verbose);
    if i < j {
      RenameFromStops(keys, members, i + 1, j, verbose);
    }
  }

  /** Some group fails exactly when there is a first one that does. */
  lemma {:induction false} FirstFailure(keys: seq<Key>, members: map<Key, seq<ImageFile>>, i: nat) returns (j: nat)
    requires i <= |keys| && KeysPresent(keys, members) && !NoneFail(keys, members, i, |keys|)
    ensures i <= j < |keys| && NoneFail(keys, members, i, j) && GroupFails(keys[j], members[keys[j]])
    decreases |keys| - i
  {
    if GroupFails(keys[i], members[keys[i]]) {
      j := i;
    } else {
      j := FirstFailure(keys, members, i + 1);
    }
  }

  /** A run of the loop that raises stops at the first failing group. */
  lemma RenameAllStops(keys: seq<Key>, members: map<Key, seq<ImageFile>>, verbose: bool) returns (j: nat)
    requires KeysPresent(keys, members) && RenameAll(keys, members, verbose).error.Some?
    ensures j < |keys| && NoneFail(keys, members, 0, j) && GroupFails(keys[j], members[keys[j]])
    ensures RenameAll(keys, members, verbose)
      == Transcript(EventsBetween(keys, members, 0, j, verbose), RenameGroup(keys[j], members[keys[j]], verbose).error)
  {
    RenameFromSucceeds(keys, members, 0, verbose);
    j := FirstFailure(keys, members, 0);
    RenameFromStops(keys, members, 0, j, verbose);
  }

  /** A log of renames only stays so when another is appended. */
  lemma QuietConcat(a: seq<Event>, b: seq<Event>)
    requires Quiet(a) && Quiet(b)
    ensures Quiet(a + b)
  {
    assert forall t :: |a| <= t < |a| + |b| ==> (a + b)[t] == b[t - |a|];
  }

  /** When the loop from the i-th key on does not raise, it renames the
      images of the remaining groups in key order, each once, announcing each
      when `verbose` is on. */
  lemma {:induction false} RenameFromRenames(keys: seq<Key>, members: map<Key, seq<ImageFile>>, i: nat, verbose: bool)
    requires i <= |keys| && KeysPresent(keys, members)
    requires RenameFrom(keys, members, i, verbose).error.None?
    ensures var ev := RenameFrom(keys, members, i, verbose).events;
      && Sources(Renames(ev)) == Names(Flatten(keys, members, i))
      && (verbose ==> Announced(ev))
      && (!verbose ==> Quiet(ev))
    decreases |keys| - i
  {
    if i < |keys| {
      var key := keys[i];
      var images := members[key];
      var step := RenameGroup(key, images, verbose);
      var rest := RenameFrom(keys, members, i + 1, verbose);
      GroupOutcome(key, images, verbose);
      RenameFromRenames(keys, members, i + 1, verbose);
      GroupRenames(key, images, verbose);
      GroupLog(key, images, verbose);
      RenamesConcat(step.events, rest.events);
      SourcesConcat(Renames(step.events), Renames(rest.events));
      NamesConcat(images, Flatten(keys, members, i + 1));
      if verbose {
        AnnouncedConcat(step.events, rest.events);
      } else {
        QuietConcat(step.events, rest.events);
      }
    } else {
      assert Sources([]) == [] && Names([]) == [];
    }
  }

  /** `verbose` changes neither whether the loop raises nor the renames it
      makes. */
  lemma {:induction false} RenameFromIgnoresVerbose(keys: seq<Key>, members: map<Key, seq<ImageFile>>, i: nat)
    requires i <= |keys| && KeysPresent(keys, members)
    ensures RenameFrom(keys, members, i, true).error == RenameFrom(keys, members, i, false).error
    ensures Renames(RenameFrom(keys, members, i, true).events) == Renames(RenameFrom(keys, members, i, false).events)
    decreases |keys| - i
  {
    if i < |keys| {
      var key := keys[i];
      var images := members[key];
      GroupOutcome(key, images, true);
      GroupOutcome(key, images, false);
      GroupRenamesIgnoreVerbose(key, images);
      if !GroupFails(key, images) {
        RenameFromIgnoresVerbose(keys, members, i + 1);
        RenamesConcat(RenameGroup(key, images, true).events, RenameFrom(keys, members, i + 1, true).events);
        RenamesConcat(RenameGroup(key, images, false).events, RenameFrom(keys, members, i + 1, false).events);
      }
    }
  }

  // ---------------------------------------------------------------------
  // main

  /** Taking the j-th element out of a sequence takes it out of its multiset. */
  lemma RemoveAt<T>(b: seq<T>, j: nat)
    requires j < |b|
    ensures multiset(b[..j] + b[j + 1..]) == multiset(b) - multiset{b[j]}
  {
    assert b == b[..j] + [b[j]] + b[j + 1..];
  }

  lemma SplitAt<T>(b: seq<T>, j: nat)
    requires j < |b|
    ensures b == b[..j] + ([b[j]] + b[j + 1..])
  {
  }

  lemma MultisetMiddle<T>(left: seq<T>, x: T, right: seq<T>)
    ensures multiset(left + ([x] + right)) == multiset(left + right) + multiset{x}
  {
  }

  /** Taking the j-th image out takes its path out of the paths. */
  lemma NamesRemoveAt(b: seq<ImageFile>, j: nat)
    requires j < |b|
    ensures multiset(Names(b)) == multiset(Names(b[..j] + b[j + 1..])) + multiset{b[j].name}
  {
    var left, right := b[..j], b[j + 1..];
    SplitAt(b, j);
    NamesConcat(left, [b[j]] + right);
    NamesConcat([b[j]], right);
    NamesConcat(left, right);
    assert Names([b[j]]) == [b[j].name];
    MultisetMiddle(Names(left), b[j].name, Names(right));
  }

  /** Rearranging images rearranges their paths the same way. */
  lemma {:induction false} NamesPermutation(a: seq<ImageFile>, b: seq<ImageFile>)
    requires multiset(a) == multiset(b)
    ensures multiset(Names(a)) == multiset(Names(b))
    decreases |a|
  {
    if a == [] {
      assert |multiset(b)| == 0;
    } else {
      var x := a[0];
      assert x in multiset(b);
      var j :| 0 <= j < |b| && b[j] == x;
      var rest := b[..j] + b[j + 1..];
      RemoveAt(b, j);
      assert a == [x] + a[1..];
      assert multiset(a[1..]) == multiset(rest);
      NamesPermutation(a[1..], rest);
      NamesRemoveAt(b, j);
      var tail := Names(a[1..]);
      assert Names(a) == [x.name] + tail;
      MultisetMiddle([], x.name, tail);
      assert [] + ([x.name] + tail) == [x.name] + tail && [] + tail == tail;
    }
  }

  /** The keys of the dict built by `main` whose group fails are at most the
      key `None`, when exactly one image has the date "". */
  lemma GroupsOfGrouping(images: seq<ImageFile>, created: ImageFile -> Option<string>, key: Key)
    requires Grouping(images, created).Success?
    ensures var g := Grouping(images, created).value;
      key in g.members ==> (GroupFails(key, g.members[key]) <==> key.None? && |Members(images, created, None)| == 1)
  {
    GroupingIsFilter(images, created, key);
  }

  /** `main` raises `IndexError`, before any rename, exactly when some image
      has a date made of whitespace only; it never raises `EmptyGroup`; it
      raises `TypeError` exactly when no date is whitespace only and exactly
      one image has the date "". */
  lemma ExecuteOutcome(images: seq<ImageFile>, created: ImageFile -> Option<string>, verbose: bool)
    ensures var r := Execute(images, created, verbose);
      && (r.error == Some(IndexError) <==> exists t :: 0 <= t < |images| && Raises(images[t], created))
      && (r.error == Some(IndexError) ==> r.events == [])
      && r.error != Some(EmptyGroup)
      && (r.error == Some(TypeError) <==>
            (forall t :: 0 <= t < |images| ==> !Raises(images[t], created)) && |Members(images, created, None)| == 1)
  {
    GroupingFails(images, created);
    if Grouping(images, created).Success? {
      var g := Grouping(images, created).value;
      GroupingValid(images, created);
      var r := RenameAll(g.keys, g.members, verbose);
      if r.error.Some? {
        var j := RenameAllStops(g.keys, g.members, verbose);
        GroupsOfGrouping(images, created, g.keys[j]);
        GroupOutcome(g.keys[j], g.members[g.keys[j]], verbose);
      }
      if |Members(images, created, None)| == 1 {
        GroupsOfGrouping(images, created, None);
        GroupingIsFilter(images, created, None);
        var t :| 0 <= t < |g.keys| && g.keys[t] == None;
        RenameFromSucceeds(g.keys, g.members, 0, verbose);
        assert !NoneFail(g.keys, g.members, 0, |g.keys|);
      }
    }
  }

  /** A run of `main` that raises nothing renames every image that has a
      date exactly once and no other file, and announces each rename when
      `verbose` is on and prints nothing when it is off. */
  lemma ExecuteRenames(images: seq<ImageFile>, created: ImageFile -> Option<string>, verbose: bool)
    requires Execute(images, created, verbose).error.None?
    ensures var ev := Execute(images, created, verbose).events;
      && multiset(Sources(Renames(ev))) == multiset(Names(Dated(images, created)))
      && (verbose ==> Announced(ev))
      && (!verbose ==> Quiet(ev))
  {
    var g := Grouping(images, created).value;
    GroupingPartition(images, created);
    RenameFromRenames(g.keys, g.members, 0, verbose);
    NamesPermutation(Flatten(g.keys, g.members, 0), Dated(images, created));
  }

  /** `verbose` changes neither the outcome of `main` nor its renames. */
  lemma ExecuteIgnoresVerbose(images: seq<ImageFile>, created: ImageFile -> Option<string>)
    ensures Execute(images, created, true).error == Execute(images, created, false).error
    ensures Renames(Execute(images, created, true).events) == Renames(Execute(images, created, false).events)
  {
    if Grouping(images, created).Success? {
      var g := Grouping(images, created).value;
      GroupingValid(images, created);
      RenameFromIgnoresVerbose(g.keys, g.members, 0);
    }
  }
}
