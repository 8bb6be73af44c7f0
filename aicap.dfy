/**
  aicap, the batch captioner of `run`: which directory entries are images,
  where each caption goes, when an image is skipped, what is written and
  what is counted. The captioning model is an oracle that describes an
  image or fails.
*/
module Aicap {
  import opened Wrappers
  import opened Text
  import opened Seqs
  import opened Host

  // ---------------------------------------------------------------------
  // Image selection

  /** `valid_exts`. */
  const ImageExts: set<string> := {".png", ".jpg", ".jpeg", ".webp", ".bmp"}

  /** `f.lower().endswith(tuple(valid_exts))`, with ASCII case folding. */
  predicate IsImageName(f: string) {
    exists e | e in ImageExts :: EndsWith(Lower(f), e)
  }

  /**
    The entries that are images, in the order given: each image entry as
    often as it occurs, every other entry dropped.
  */
  function ImagesOf(names: seq<string>): (r: seq<string>)
    ensures forall f :: f in r <==> f in names && IsImageName(f)
    ensures forall f :: multiset(r)[f] == if IsImageName(f) then multiset(names)[f] else 0
    ensures SubsequenceOf(r, names)
  {
    Filter(names, IsImageName)
  }

  lemma ImagesOfSorted(names: seq<string>)
    requires Sorted(names, StrLe)
    ensures Sorted(ImagesOf(names), StrLe)
  {
    FilterSorted(names, IsImageName, StrLe);
  }

  /**
    `images`: the image entries of the directory listing, in sorted name
    order. Exactly the image entries appear, each in name order.
  */
  function SelectImages(listing: seq<string>): (r: seq<string>)
    ensures forall f :: f in r <==> f in listing && IsImageName(f)
    ensures forall f :: multiset(r)[f] == if IsImageName(f) then multiset(listing)[f] else 0
    ensures Sorted(r, StrLe)
  {
    var sorted := InsertionSort(listing, StrLe);
    SortPermutes(listing, StrLe);
    assert forall f :: f in sorted <==> f in multiset(sorted);
    StrLeIsPreorder();
    SortSorted(listing, StrLe);
    ImagesOfSorted(sorted);
    ImagesOf(sorted)
  }

  /**
    `os.listdir` names each entry once, so the selected images come in
    strictly increasing name order: no name is repeated or out of place.
  */
  lemma SelectImagesIncreasing(listing: seq<string>)
    requires forall i, j | 0 <= i < j < |listing| :: listing[i] != listing[j]
    ensures forall i, j | 0 <= i < j < |SelectImages(listing)| ::
      StrLe(SelectImages(listing)[i], SelectImages(listing)[j]) && !StrLe(SelectImages(listing)[j], SelectImages(listing)[i])
  {
    var r := SelectImages(listing);
    forall i, j | 0 <= i < j < |r| ensures !StrLe(r[j], r[i]) {
      if StrLe(r[j], r[i]) {
        StrLeAntisymmetric(r[i], r[j]);
        RepeatCounts(r, i, j);
        DistinctCounts(listing, r[i]);
        assert false;
      }
    }
  }

  // ---------------------------------------------------------------------
  // Caption path

  /** The index of the last '.' in `s`, if any. */
  function LastDot(s: string): (r: Option<nat>)
    ensures r.Some? ==> r.value < |s| && s[r.value] == '.' && forall j | r.value < j < |s| :: s[j] != '.'
    ensures r.None? ==> forall j | 0 <= j < |s| :: s[j] != '.'
    decreases |s|
  {
    if s == [] then None
    else if s[|s| - 1] == '.' then Some(|s| - 1)
    else LastDot(s[..|s| - 1])
  }

  /**
    `Path(name).stem`: the name without its last suffix. pathlib counts a
    suffix only when its dot is neither the first nor the last character.
  */
  function Stem(name: string): (r: string)
    ensures |r| <= |name| && name[..|r|] == r
    ensures r == name || (0 < |r| < |name| - 1 && name[|r|] == '.' && forall j | |r| < j < |name| :: name[j] != '.')
  {
    match LastDot(name)
    case Some(i) => if 0 < i < |name| - 1 then name[..i] else name
    case None => name
  }

  /** The file name of an image's caption: `stem + ".txt"`. */
  function CaptionName(image: string): string {
    Stem(image) + ".txt"
  }

  /** `folder / (img_path.stem + ".txt")`. */
  function CaptionPath(folder: string, image: string): string {
    PathJoin(folder, CaptionName(image))
  }

  lemma LowerKeepsDots(s: string, j: int)
    requires 0 <= j < |s|
    ensures Lower(s)[j] == '.' <==> s[j] == '.'
  {
  }

  /**
    For an image with something before its extension, the caption sits
    next to it under the same name with the extension replaced by ".txt".
  */
  lemma CaptionReplacesExtension(image: string, e: string)
    requires e in ImageExts && EndsWith(Lower(image), e) && |image| > |e|
    ensures Stem(image) == image[..|image| - |e|]
    ensures CaptionName(image) == image[..|image| - |e|] + ".txt"
  {
    var k := |image| - |e|;
    assert Lower(image)[k..] == e;
    assert Lower(image)[k] == '.';
    LowerKeepsDots(image, k);
    forall j | k < j < |image| ensures image[j] != '.' {
      assert Lower(image)[j] == e[j - k];
      LowerKeepsDots(image, j);
    }
    assert LastDot(image) == Some(k);
  }

  /** A caption file is never itself selected as an image. */
  lemma CaptionIsNotImage(image: string)
    ensures !IsImageName(CaptionName(image))
  {
    var c := CaptionName(image);
    var l := Lower(c);
    assert l[|l| - 4..] == ".txt";
    forall e | e in ImageExts ensures !EndsWith(l, e) {
      assert e[|e| - 1] != 't';
      if |e| <= |l| {
        assert l[|l| - |e|..][|e| - 1] == 't';
      }
    }
  }

  // ---------------------------------------------------------------------
  // The captioning loop

  /** What opening and describing one image, then writing its caption, gives. */
  datatype Attempt =
    | Unreadable                      // `Image.open(...).convert("RGB")` raised
    | InferenceFailed                 // the model raised, or `open(txt_path, "w")` did: no caption file is made
    | WriteFailed(written: string)    // `open` created or truncated the caption file, then the write or the close
                                      // raised; `written` is what the file holds afterwards
    | Described(description: string)  // `parsed_answer[task]`, written in full

  /** The attempt got as far as `open(txt_path, "w")`, so the caption file exists afterwards. */
  predicate Opens(a: Attempt) {
    a.WriteFailed? || a.Described?
  }

  /** `f"{trigger}, {description}"`. */
  function CaptionText(trigger: string, description: string): string {
    trigger + ", " + description
  }

  /** What the caption file holds after an attempt that opened it. */
  function Content(trigger: string, a: Attempt): string
    requires Opens(a)
  {
    if a.Described? then CaptionText(trigger, a.description) else a.written
  }

  /**
    The caption files the loop writes, in order. `present` holds the names
    in the folder: the listing at first, then also every caption file
    opened, since `txt_path.exists()` is asked afresh for each image.
    `attempt` answers for each image name.
  */
  function Captions(folder: string, trigger: string, force: bool, images: seq<string>, present: set<string>,
                    attempt: string -> Attempt): (r: seq<Effect>)
    ensures |r| <= |images|
    ensures forall i | 0 <= i < |r| :: r[i].WriteFile?
    decreases |images|
  {
    if images == [] then []
    else
      var image := images[0];
      var name := CaptionName(image);
      if !force && name in present then Captions(folder, trigger, force, images[1..], present, attempt)
      else if Opens(attempt(image)) then
        [WriteFile(PathJoin(folder, name), Content(trigger, attempt(image)))]
        + Captions(folder, trigger, force, images[1..], present + {name}, attempt)
      else Captions(folder, trigger, force, images[1..], present, attempt)
  }

  /** The `count` the loop reports: the images whose caption was written in full. */
  function Updated(force: bool, images: seq<string>, present: set<string>, attempt: string -> Attempt): (r: nat)
    ensures r <= |images|
    decreases |images|
  {
    if images == [] then 0
    else
      var image := images[0];
      var name := CaptionName(image);
      if !force && name in present then Updated(force, images[1..], present, attempt)
      else if Opens(attempt(image)) then
        (if attempt(image).Described? then 1 else 0) + Updated(force, images[1..], present + {name}, attempt)
      else Updated(force, images[1..], present, attempt)
  }

  /** The images the model describes. */
  function DescribedCount(images: seq<string>, attempt: string -> Attempt): (r: nat)
    ensures r <= |images|
    decreases |images|
  {
    if images == [] then 0
    else (if attempt(images[0]).Described? then 1 else 0) + DescribedCount(images[1..], attempt)
  }

  /** The images whose caption file gets opened, if the loop reaches them. */
  function OpenedCount(images: seq<string>, attempt: string -> Attempt): (r: nat)
    ensures r <= |images|
    decreases |images|
  {
    if images == [] then 0
    else (if Opens(attempt(images[0])) then 1 else 0) + OpenedCount(images[1..], attempt)
  }

  /**
    At most one caption file per image that gets as far as `open`, and the
    count never exceeds the files written or the images described.
  */
  lemma {:induction false} CaptionsBound(folder: string, trigger: string, force: bool, images: seq<string>,
                                         present: set<string>, attempt: string -> Attempt)
    ensures |Captions(folder, trigger, force, images, present, attempt)| <= OpenedCount(images, attempt)
    ensures Updated(force, images, present, attempt) <= |Captions(folder, trigger, force, images, present, attempt)|
    ensures Updated(force, images, present, attempt) <= DescribedCount(images, attempt)
    decreases |images|
  {
    if images != [] {
      var name := CaptionName(images[0]);
      CaptionsBound(folder, trigger, force, images[1..], present, attempt);
      CaptionsBound(folder, trigger, force, images[1..], present + {name}, attempt);
    }
  }

  /** When every write completes, the count is exactly the number of caption files written. */
  lemma {:induction false} UpdatedCountsWrites(folder: string, trigger: string, force: bool, images: seq<string>,
                                               present: set<string>, attempt: string -> Attempt)
    requires forall image | image in images :: !attempt(image).WriteFailed?
    ensures Updated(force, images, present, attempt) == |Captions(folder, trigger, force, images, present, attempt)|
    decreases |images|
  {
    if images != [] {
      var name := CaptionName(images[0]);
      assert forall image | image in images[1..] :: image in images;
      UpdatedCountsWrites(folder, trigger, force, images[1..], present, attempt);
      UpdatedCountsWrites(folder, trigger, force, images[1..], present + {name}, attempt);
    }
  }

  /**
    With `--force` every image that gets as far as `open` has its caption
    file written, whatever the folder already holds: a described image with
    trigger + ", " + its description. There are no other writes, and the
    count is the number of described images.
  */
  lemma {:induction false} ForceCaptionsAll(folder: string, trigger: string, images: seq<string>,
                                            present: set<string>, attempt: string -> Attempt)
    ensures forall i | 0 <= i < |images| && Opens(attempt(images[i])) ::
      WriteFile(CaptionPath(folder, images[i]), Content(trigger, attempt(images[i])))
        in Captions(folder, trigger, true, images, present, attempt)
    ensures |Captions(folder, trigger, true, images, present, attempt)| == OpenedCount(images, attempt)
    ensures Updated(true, images, present, attempt) == DescribedCount(images, attempt)
    decreases |images|
  {
    if images != [] {
      var image := images[0];
      var name := CaptionName(image);
      var next := if Opens(attempt(image)) then present + {name} else present;
      var tail := Captions(folder, trigger, true, images[1..], next, attempt);
      ForceCaptionsAll(folder, trigger, images[1..], next, attempt);
      var ws := Captions(folder, trigger, true, images, present, attempt);
      forall i | 0 <= i < |images| && Opens(attempt(images[i]))
        ensures WriteFile(CaptionPath(folder, images[i]), Content(trigger, attempt(images[i]))) in ws
      {
        if i > 0 {
          assert images[i] == images[1..][i - 1];
          assert forall w | w in tail :: w in ws;
        }
      }
    }
  }

  /**
    Each write is to the caption path of one selected image that got as far
    as `open`, and holds what that attempt left there: for a described image,
    the trigger, a comma and the description.
  */
  lemma {:induction false} CaptionsAreDescriptions(folder: string, trigger: string, force: bool, images: seq<string>,
                                                   present: set<string>, attempt: string -> Attempt)
    ensures forall w | w in Captions(folder, trigger, force, images, present, attempt) ::
      exists image | image in images ::
        Opens(attempt(image)) && w == WriteFile(CaptionPath(folder, image), Content(trigger, attempt(image)))
    decreases |images|
  {
    if images != [] {
      var image := images[0];
      var name := CaptionName(image);
      CaptionsAreDescriptions(folder, trigger, force, images[1..], present, attempt);
      CaptionsAreDescriptions(folder, trigger, force, images[1..], present + {name}, attempt);
      assert forall f | f in images[1..] :: f in images;
    }
  }

  lemma PathJoinInjective(folder: string, a: string, b: string)
    requires PathJoin(folder, a) == PathJoin(folder, b)
    ensures a == b
  {
    var pa := PathJoin(folder, a);
    var prefix := pa[..|pa| - |a|];
    assert pa == prefix + a;
    assert PathJoin(folder, b) == prefix + b;
    assert a == pa[|prefix|..];
  }

  /**
    With `--skip`, no existing file is overwritten: no write lands on a name
    already in the folder, and no two writes share a path.
  */
  predicate AvoidsNames(ws: seq<Effect>, folder: string, present: set<string>)
    requires forall i | 0 <= i < |ws| :: ws[i].WriteFile?
  {
    forall i, n | 0 <= i < |ws| && n in present :: ws[i].path != PathJoin(folder, n)
  }

  predicate DistinctPaths(ws: seq<Effect>)
    requires forall i | 0 <= i < |ws| :: ws[i].WriteFile?
  {
    forall i, j | 0 <= i < j < |ws| :: ws[i].path != ws[j].path
  }

  lemma {:induction false} SkipNeverOverwrites(folder: string, trigger: string, images: seq<string>,
                                               present: set<string>, attempt: string -> Attempt)
    ensures AvoidsNames(Captions(folder, trigger, false, images, present, attempt), folder, present)
    ensures DistinctPaths(Captions(folder, trigger, false, images, present, attempt))
    decreases |images|
  {
    if images != [] {
      var image := images[0];
      var name := CaptionName(image);
      var ws := Captions(folder, trigger, false, images, present, attempt);
      if name in present || !Opens(attempt(image)) {
        assert ws == Captions(folder, trigger, false, images[1..], present, attempt);
        SkipNeverOverwrites(folder, trigger, images[1..], present, attempt);
      } else {
        var tail := Captions(folder, trigger, false, images[1..], present + {name}, attempt);
        SkipNeverOverwrites(folder, trigger, images[1..], present + {name}, attempt);
        assert ws == [WriteFile(PathJoin(folder, name), Content(trigger, attempt(image)))] + tail;
        assert ws[0].path == PathJoin(folder, name);
        forall i, n | 0 <= i < |ws| && n in present ensures ws[i].path != PathJoin(folder, n) {
          if i == 0 {
            if ws[i].path == PathJoin(folder, n) {
              PathJoinInjective(folder, name, n);
            }
          } else {
            assert ws[i] == tail[i - 1];
            assert n in present + {name};
          }
        }
        forall i, j | 0 <= i < j < |ws| ensures ws[i].path != ws[j].path {
          assert ws[j] == tail[j - 1];
          if i > 0 {
            assert ws[i] == tail[i - 1];
          } else {
            assert name in present + {name};
            assert tail[j - 1].path != PathJoin(folder, name);
          }
        }
      }
    }
  }

  /** The write, if any, and the count added for one image, given the names `present` so far. */
  predicate CaptionStep(folder: string, trigger: string, force: bool, image: string, present: set<string>,
                        attempt: string -> Attempt, out: seq<Effect>, counted: nat, next: set<string>)
  {
    var name := CaptionName(image);
    if (force || name !in present) && Opens(attempt(image)) then
      && out == [WriteFile(PathJoin(folder, name), Content(trigger, attempt(image)))]
      && counted == (if attempt(image).Described? then 1 else 0)
      && next == present + {name}
    else out == [] && counted == 0 && next == present
  }

  /** The captions and the count from image `i` on: the step's, then those from `i + 1` on. */
  lemma CaptionsUnfold(folder: string, trigger: string, force: bool, images: seq<string>, i: nat, present: set<string>,
                       attempt: string -> Attempt, out: seq<Effect>, counted: nat, next: set<string>)
    requires i < |images|
    requires CaptionStep(folder, trigger, force, images[i], present, attempt, out, counted, next)
    ensures Captions(folder, trigger, force, images[i..], present, attempt)
      == out + Captions(folder, trigger, force, images[i + 1..], next, attempt)
    ensures Updated(force, images[i..], present, attempt) == counted + Updated(force, images[i + 1..], next, attempt)
  {
    assert images[i..][0] == images[i];
    assert images[i..][1..] == images[i + 1..];
  }

  lemma Regroup<T>(a: seq<T>, b: seq<T>, c: seq<T>, all: seq<T>)
    requires a + (b + c) == all
    ensures (a + b) + c == all
  {
    assert (a + b) + c == a + (b + c);
  }

  /**
    The `for filename in images` loop: skip, read, describe, write, count.
    `present` is the set of names in the folder before the loop.
  */
  method CaptionLoop(folder: string, trigger: string, force: bool, images: seq<string>, present: set<string>,
                     attempt: string -> Attempt) returns (count: nat, writes: seq<Effect>)
    ensures writes == Captions(folder, trigger, force, images, present, attempt)
    ensures count == Updated(force, images, present, attempt)
  {
    count, writes := 0, [];
    var names := present;
    for i := 0 to |images|
      invariant count + Updated(force, images[i..], names, attempt) == Updated(force, images, present, attempt)
      invariant writes + Captions(folder, trigger, force, images[i..], names, attempt)
        == Captions(folder, trigger, force, images, present, attempt)
    {
      var out, counted, next := CaptionImage(folder, trigger, force, images[i], names, attempt);
      CaptionsUnfold(folder, trigger, force, images, i, names, attempt, out, counted, next);
      Regroup(writes, out, Captions(folder, trigger, force, images[i + 1..], next, attempt),
              Captions(folder, trigger, force, images, present, attempt));
      writes, names, count := writes + out, next, count + counted;
    }
  }

  /**
    The body of the loop for one image: skip it, or write the caption file,
    counting it only when the write completes.
  */
  method CaptionImage(folder: string, trigger: string, force: bool, image: string, present: set<string>,
                      attempt: string -> Attempt) returns (out: seq<Effect>, counted: nat, next: set<string>)
    ensures CaptionStep(folder, trigger, force, image, present, attempt, out, counted, next)
  {
    var name := CaptionName(image);
    out, counted, next := [], 0, present;
    if force || name !in present {
      var a := attempt(image);
      match a
      case Described(d) =>
        out, counted, next := [WriteFile(PathJoin(folder, name), CaptionText(trigger, d))], 1, present + {name};
      case WriteFailed(partial) =>
        out, next := [WriteFile(PathJoin(folder, name), partial)], present + {name};
      case _ =>
    }
  }

  datatype RunOutcome =
    | ModelLoadFailed   // `load_model` exits with status 1
    | NoImages          // `typer.Exit()`: status 0, the loop never runs
    | Done(count: nat)  // "Updated {count} images."

  /**
    `run`: load the model (`modelLoaded` tells whether that succeeded), pick
    the images of `listing` (the entries of `folder`), and caption them.
  */
  method Run(folder: string, trigger: string, force: bool, modelLoaded: bool, listing: seq<string>,
             attempt: string -> Attempt) returns (outcome: RunOutcome, writes: seq<Effect>)
    ensures !modelLoaded ==> outcome == ModelLoadFailed && writes == []
    ensures modelLoaded && SelectImages(listing) == [] ==> outcome == NoImages && writes == []
    ensures modelLoaded && SelectImages(listing) != [] ==>
      && writes == Captions(folder, trigger, force, SelectImages(listing), (set f | f in listing), attempt)
      && outcome == Done(Updated(force, SelectImages(listing), (set f | f in listing), attempt))
    ensures outcome.Done? ==> outcome.count <= |writes| <= |SelectImages(listing)|
  {
    if !modelLoaded {
      return ModelLoadFailed, [];
    }
    var images := SelectImages(listing);
    if images == [] {
      return NoImages, [];
    }
    var count;
    count, writes := CaptionLoop(folder, trigger, force, images, (set f | f in listing), attempt);
    CaptionsBound(folder, trigger, force, images, (set f | f in listing), attempt);
    outcome := Done(count);
  }
}
