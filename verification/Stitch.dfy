/** The stitcher of `stitch/stitch.go`: it pairs file names with loop counts,
    then appends every file's frames and frame delays to one growing GIF, as
    many times as the file's loop count says, in file order.

    Opening a file and decoding it as a GIF are not modelled; they are the
    oracle `load`, which says for a file name whether opening failed, decoding
    failed, or which frames and delays the file holds. */
module Stitch {
  import opened Failures

  /** One input file and the number of times its frames are appended. */
  datatype File = File(name: string, loops: int)

  type FileList = seq<File>

  /** The frames of an animation and their display delays. `T` stands for a
      decoded frame, which the stitcher never looks into. */
  datatype Gif<T> = Gif(images: seq<T>, delays: seq<int>) {
    /** Every frame has exactly one delay. */
    predicate Balanced() {
      |images| == |delays|
    }

    /** This GIF's frames followed by `other`'s, and the delays likewise. */
    function Then(other: Gif<T>): Gif<T> {
      Gif(images + other.images, delays + other.delays)
    }
  }

  /** The zero value of Go's `GIF`: no frames, no delays. */
  function Empty<T>(): Gif<T> {
    Gif([], [])
  }

  /** What opening and decoding a named file gives. */
  datatype Load<T> = OpenFailed | DecodeFailed | Loaded(gif: Gif<T>)

  /** The error `Add` reports for a file that could not be loaded. */
  function LoadError<T>(l: Load<T>, name: string): Error
    requires !l.Loaded?
  {
    if l.OpenFailed? then CannotOpen(name) else CannotDecode(name)
  }

  // ---------------------------------------------------------------------------
  // Repetition

  /** `s` written out `n` times in a row; nothing when `n` is zero or negative. */
  function Repeat<T>(s: seq<T>, n: int): (r: seq<T>)
    ensures |r| == (if n <= 0 then 0 else n * |s|)
    decreases n
  {
    if n <= 0 then [] else Repeat(s, n - 1) + s
  }

  /** Copy `j` of a repetition holds `s` again: offset `r` into it is `s[r]`. */
  lemma {:induction false} RepeatAt<T>(s: seq<T>, n: int, j: int, r: int)
    requires 0 <= j < n && 0 <= r < |s|
    ensures j * |s| + r < |Repeat(s, n)|
    ensures Repeat(s, n)[j * |s| + r] == s[r]
    decreases n
  {
    var prev := Repeat(s, n - 1);
    assert Repeat(s, n) == prev + s;
    if j < n - 1 {
      RepeatAt(s, n - 1, j, r);
    } else {
      assert |prev| == j * |s|;
    }
  }

  /** Repeating `a + b` times is repeating `a` times, then `b` times. */
  lemma {:induction false} RepeatAdd<T>(s: seq<T>, a: nat, b: nat)
    ensures Repeat(s, a + b) == Repeat(s, a) + Repeat(s, b)
    decreases b
  {
    if b > 0 {
      RepeatAdd(s, a, b - 1);
      assert Repeat(s, a + b) == Repeat(s, a + (b - 1)) + s;
    }
  }

  // ---------------------------------------------------------------------------
  // Argument resolution

  /** The default loop counts: a 1 for each of `n` files. */
  function Defaults(n: nat): (counts: seq<int>)
    ensures |counts| == n
    ensures forall i :: 0 <= i < n ==> counts[i] == 1
  {
    if n == 0 then [] else Defaults(n - 1) + [1]
  }

  /** The file list built from parallel lists of names and counts. */
  function Pair(names: seq<string>, counts: seq<int>): (fl: FileList)
    requires |names| == |counts|
    ensures |fl| == |names|
    ensures forall i :: 0 <= i < |fl| ==> fl[i] == File(names[i], counts[i])
  {
    if |names| == 0 then []
    else
      var n := |names| - 1;
      Pair(names[..n], counts[..n]) + [File(names[n], counts[n])]
  }

  /** `parseArgs`: an empty `loops` gives every file the loop count 1;
      otherwise the lengths must agree and file `i` gets `loops[i]`, which is
      passed through as it is, zero and negative counts included. */
  function ParseArgs(files: seq<string>, loops: seq<int>): (r: Result<FileList>)
    ensures r.Err? <==> |loops| != 0 && |loops| != |files|
    ensures r.Err? ==> r.error == CountMismatch(|files|, |loops|)
    ensures r.Ok? ==> |r.value| == |files|
    ensures r.Ok? ==> forall i :: 0 <= i < |files| ==>
      r.value[i].name == files[i] && r.value[i].loops == (if |loops| == 0 then 1 else loops[i])
  {
    if |loops| != 0 && |loops| != |files| then Err(CountMismatch(|files|, |loops|))
    else
      var counts := if |loops| == 0 then Defaults(|files|) else loops;
      Ok(Pair(files, counts))
  }

  /** The names of a file list, in order. */
  function Names(fl: FileList): (names: seq<string>)
    ensures |names| == |fl|
    ensures forall i :: 0 <= i < |fl| ==> names[i] == fl[i].name
  {
    if |fl| == 0 then [] else [fl[0].name] + Names(fl[1..])
  }

  /** The loop counts of a file list, in order. */
  function Counts(fl: FileList): (counts: seq<int>)
    ensures |counts| == |fl|
    ensures forall i :: 0 <= i < |fl| ==> counts[i] == fl[i].loops
  {
    if |fl| == 0 then [] else [fl[0].loops] + Counts(fl[1..])
  }

  /** Resolution loses nothing: the names and the counts it was given can be
      read back from its result. */
  lemma ParseArgsUnzips(files: seq<string>, loops: seq<int>)
    requires ParseArgs(files, loops).Ok?
    ensures Names(ParseArgs(files, loops).value) == files
    ensures Counts(ParseArgs(files, loops).value) == (if |loops| == 0 then Defaults(|files|) else loops)
  {
    var counts := if |loops| == 0 then Defaults(|files|) else loops;
    assert ParseArgs(files, loops).value == Pair(files, counts);
    UnzipPair(files, counts);
  }

  /** `Names` and `Counts` take a paired list apart again. */
  lemma UnzipPair(names: seq<string>, counts: seq<int>)
    requires |names| == |counts|
    ensures Names(Pair(names, counts)) == names
    ensures Counts(Pair(names, counts)) == counts
  {
    var fl := Pair(names, counts);
    assert Names(fl) == names by {
      forall i | 0 <= i < |fl| ensures Names(fl)[i] == names[i] {
        assert fl[i] == File(names[i], counts[i]);
      }
    }
    assert Counts(fl) == counts by {
      forall i | 0 <= i < |fl| ensures Counts(fl)[i] == counts[i] {
        assert fl[i] == File(names[i], counts[i]);
      }
    }
  }

  /** Resolution rebuilds any file list from its names and counts. */
  lemma ParseArgsZips(fl: FileList)
    ensures ParseArgs(Names(fl), Counts(fl)) == Ok(fl)
  {
    var r := ParseArgs(Names(fl), Counts(fl));
    assert r.Ok?;
    assert r.value == fl;
  }

  // ---------------------------------------------------------------------------
  // Adding one file

  /** `(*GIF).Add`: load the file, then append its frames and delays
      `f.loops` times. `g'` is the receiver after the call; on an error it is
      the receiver as it was. */
  method Add<T>(g: Gif<T>, f: File, load: string -> Load<T>) returns (g': Gif<T>, err: Option<Error>)
    ensures !load(f.name).Loaded? ==> err == Some(LoadError(load(f.name), f.name)) && g' == g
    ensures load(f.name).Loaded? ==> err == None
    ensures load(f.name).Loaded? ==> g'.images == g.images + Repeat(load(f.name).gif.images, f.loops)
    ensures load(f.name).Loaded? ==> g'.delays == g.delays + Repeat(load(f.name).gif.delays, f.loops)
    ensures f.loops <= 0 ==> g' == g
    ensures g.Balanced() && load(f.name).Loaded? && load(f.name).gif.Balanced() ==> g'.Balanced()
  {
    match load(f.name)
    case OpenFailed =>
      return g, Some(CannotOpen(f.name));
    case DecodeFailed =>
      return g, Some(CannotDecode(f.name));
    case Loaded(img) =>
      g' := g;
      var i := 0;
      while i < f.loops
        invariant 0 <= i <= (if f.loops < 0 then 0 else f.loops)
        invariant g'.images == g.images + Repeat(img.images, i)
        invariant g'.delays == g.delays + Repeat(img.delays, i)
      {
        g' := Gif(g'.images + img.images, g'.delays + img.delays);
        i := i + 1;
      }
      err := None;
  }

  // ---------------------------------------------------------------------------
  // The whole stitch

  /** Every file of the list opens and decodes. */
  ghost predicate AllLoaded<T>(fl: FileList, load: string -> Load<T>) {
    forall i :: 0 <= i < |fl| ==> load(fl[i].name).Loaded?
  }

  /** File `i` is the first of the list that does not load. */
  ghost predicate FirstUnloaded<T>(fl: FileList, load: string -> Load<T>, i: int)
    requires 0 <= i < |fl|
  {
    && !load(fl[i].name).Loaded?
    && forall j :: 0 <= j < i ==> load(fl[j].name).Loaded?
  }

  /** The error of the first file that does not load, if any. */
  function FirstFailure<T>(fl: FileList, load: string -> Load<T>): (r: Option<Error>)
    ensures r.None? <==> AllLoaded(fl, load)
    ensures r.Some? ==> exists i :: (0 <= i < |fl| && FirstUnloaded(fl, load, i)
                                     && r.value == LoadError(load(fl[i].name), fl[i].name))
  {
    if |fl| == 0 then None
    else if !load(fl[0].name).Loaded? then
      assert FirstUnloaded(fl, load, 0);
      Some(LoadError(load(fl[0].name), fl[0].name))
    else
      var r := FirstFailure(fl[1..], load);
      assert r.None? ==> AllLoaded(fl, load) by {
        if r.None? {
          forall i | 0 <= i < |fl| ensures load(fl[i].name).Loaded? {
            if i > 0 {
              assert fl[i] == fl[1..][i - 1];
            }
          }
        }
      }
      assert r.Some? ==> exists i :: (0 <= i < |fl| && FirstUnloaded(fl, load, i)
                                      && r.value == LoadError(load(fl[i].name), fl[i].name)) by {
        if r.Some? {
          var j :| 0 <= j < |fl| - 1 && FirstUnloaded(fl[1..], load, j)
            && r.value == LoadError(load(fl[1..][j].name), fl[1..][j].name);
          assert FirstUnloaded(fl, load, j + 1);
        }
      }
      r
  }

  /** What one file adds to the stitch: its frames and its delays, each
      repeated the file's loop count. A file that does not load adds nothing
      (the stitch stops there, see `FirstFailure`). */
  function Contribution<T>(f: File, load: string -> Load<T>): Gif<T> {
    match load(f.name)
    case Loaded(d) => Gif(Repeat(d.images, f.loops), Repeat(d.delays, f.loops))
    case _ => Empty()
  }

  /** The GIF the stitch builds: the contributions of the files, one after
      the other in list order. */
  function Stitched<T>(fl: FileList, load: string -> Load<T>): Gif<T> {
    if |fl| == 0 then Empty()
    else
      var n := |fl| - 1;
      Stitched(fl[..n], load).Then(Contribution(fl[n], load))
  }

  /** The first file that does not load decides the error. */
  lemma FirstFailureAt<T>(fl: FileList, load: string -> Load<T>, i: nat)
    requires i < |fl|
    requires forall j :: 0 <= j < i ==> load(fl[j].name).Loaded?
    requires !load(fl[i].name).Loaded?
    ensures FirstFailure(fl, load) == Some(LoadError(load(fl[i].name), fl[i].name))
  {
  }

  /** The loop of `Create`: add the files in order, starting from the empty
      GIF. The first file that fails stops the loop, and its error comes back
      with an empty GIF. */
  method AddAll<T>(fl: FileList, load: string -> Load<T>) returns (g: Gif<T>, err: Option<Error>)
    ensures !AllLoaded(fl, load) ==> g == Empty() && err == FirstFailure(fl, load)
    ensures AllLoaded(fl, load) ==> err == None && g == Stitched(fl, load)
  {
    g := Empty();
    var i := 0;
    while i < |fl|
      invariant 0 <= i <= |fl|
      invariant AllLoaded(fl[..i], load)
      invariant g == Stitched(fl[..i], load)
    {
      var next, e := Add(g, fl[i], load);
      if e.Some? {
        FirstFailureAt(fl, load, i);
        return Empty(), e;
      }
      assert load(fl[i].name).Loaded?;
      var grown := fl[..i + 1];
      assert AllLoaded(grown, load) by {
        forall j | 0 <= j < |grown| ensures load(grown[j].name).Loaded? {
          if j < i {
            assert grown[j] == fl[..i][j];
          }
        }
      }
      assert fl[..i + 1][..i] == fl[..i];
      g := next;
      i := i + 1;
    }
    assert fl[..i] == fl;
    err := None;
  }

  /** `Create`: resolve the arguments, then add the files in order. The first
      failure, of the resolution or of any file, is returned with an empty
      GIF; otherwise the result is the stitch of all files. */
  method Create<T>(files: seq<string>, loops: seq<int>, load: string -> Load<T>) returns (g: Gif<T>, err: Option<Error>)
    ensures ParseArgs(files, loops).Err? ==> g == Empty() && err == Some(ParseArgs(files, loops).error)
    ensures ParseArgs(files, loops).Ok? ==>
      var fl := ParseArgs(files, loops).value;
      && (!AllLoaded(fl, load) ==> g == Empty() && err == FirstFailure(fl, load))
      && (AllLoaded(fl, load) ==> err == None && g == Stitched(fl, load))
  {
    var r := ParseArgs(files, loops);
    if r.Err? {
      return Empty(), Some(r.error);
    }
    g, err := AddAll(r.value, load);
  }

  // ---------------------------------------------------------------------------
  // Properties of the stitch

  /** The frame/delay pairing survives the whole stitch. */
  lemma {:induction false} StitchedBalanced<T>(fl: FileList, load: string -> Load<T>)
    requires forall i :: 0 <= i < |fl| && load(fl[i].name).Loaded? ==> load(fl[i].name).gif.Balanced()
    ensures Stitched(fl, load).Balanced()
  {
    if |fl| > 0 {
      var n := |fl| - 1;
      assert forall i :: 0 <= i < n ==> fl[..n][i] == fl[i];
      StitchedBalanced(fl[..n], load);
    }
  }

  /** Stitching two lists one after the other is stitching each and joining. */
  lemma {:induction false} StitchedAppend<T>(a: FileList, b: FileList, load: string -> Load<T>)
    ensures Stitched(a + b, load) == Stitched(a, load).Then(Stitched(b, load))
    decreases |b|
  {
    if |b| == 0 {
      assert a + b == a;
    } else {
      var n := |b| - 1;
      assert (a + b)[..|a| + n] == a + b[..n];
      assert (a + b)[|a| + n] == b[n];
      StitchedAppend(a, b[..n], load);
    }
  }

  /** A single file's stitch is its contribution. */
  lemma StitchedSingle<T>(f: File, load: string -> Load<T>)
    ensures Stitched([f], load) == Contribution(f, load)
  {
  }

  /** Files that contribute nothing can be left out anywhere in the list. */
  lemma StitchedDropsEmpty<T>(pre: FileList, mid: FileList, post: FileList, load: string -> Load<T>)
    requires Stitched(mid, load) == Empty()
    ensures Stitched(pre + mid + post, load) == Stitched(pre + post, load)
  {
    StitchedAppend(pre + mid, post, load);
    StitchedAppend(pre, mid, load);
    assert Stitched(pre + mid, load) == Stitched(pre, load) by {
      assert Stitched(pre, load).Then(Empty()) == Stitched(pre, load);
    }
    StitchedAppend(pre, post, load);
  }

  /** A file whose loop count is zero or negative adds no frames: the stitch
      is the same as without it. (It must still load, see
      `ScenarioMissingFile`.) */
  lemma StitchedSkipsNonPositive<T>(fl: FileList, load: string -> Load<T>, i: nat)
    requires i < |fl| && fl[i].loops <= 0
    ensures Stitched(fl[..i] + fl[i + 1..], load) == Stitched(fl, load)
  {
    StitchedSingle(fl[i], load);
    assert fl == fl[..i] + [fl[i]] + fl[i + 1..];
    StitchedDropsEmpty(fl[..i], [fl[i]], fl[i + 1..], load);
  }

  /** A loaded file listed twice in a row, with counts `a, b >= 0`, contributes
      as one listing with count `a + b`. */
  lemma StitchedRepeatsFile<T>(f: File, load: string -> Load<T>, a: nat, b: nat)
    requires load(f.name).Loaded?
    ensures Stitched([f.(loops := a), f.(loops := b)], load) == Stitched([f.(loops := a + b)], load)
  {
    var fa, fb := f.(loops := a), f.(loops := b);
    StitchedAppend([fa], [fb], load);
    assert [fa] + [fb] == [fa, fb];
    StitchedSingle(fa, load);
    StitchedSingle(fb, load);
    StitchedSingle(f.(loops := a + b), load);
    RepeatAdd(load(f.name).gif.images, a, b);
    RepeatAdd(load(f.name).gif.delays, a, b);
  }

  // ---------------------------------------------------------------------------
  // The documented scenarios

  /** Two files and no loop counts: each once, first file first. */
  lemma ScenarioDefaultLoops<T>(load: string -> Load<T>, a: Gif<T>, b: Gif<T>)
    requires load("a.gif") == Loaded(a) && load("b.gif") == Loaded(b)
    ensures ParseArgs(["a.gif", "b.gif"], []) == Ok([File("a.gif", 1), File("b.gif", 1)])
    ensures AllLoaded([File("a.gif", 1), File("b.gif", 1)], load)
    ensures Stitched([File("a.gif", 1), File("b.gif", 1)], load).images == a.images + b.images
  {
    var fl := [File("a.gif", 1), File("b.gif", 1)];
    assert ParseArgs(["a.gif", "b.gif"], []) == Ok(fl) by {
      var r := ParseArgs(["a.gif", "b.gif"], []);
      assert r.Ok? && |r.value| == 2;
      assert r.value[0] == fl[0] && r.value[1] == fl[1];
      assert r.value == fl;
    }
    assert Stitched(fl, load).images == a.images + b.images by {
      assert [fl[0]] + [fl[1]] == fl;
      StitchedAppend([fl[0]], [fl[1]], load);
      StitchedSingle(fl[0], load);
      StitchedSingle(fl[1], load);
      assert Repeat(a.images, 1) == a.images;
      assert Repeat(b.images, 1) == b.images;
    }
  }

  /** One file looped three times: its frames three times in a row. */
  lemma ScenarioThreeLoops<T>(load: string -> Load<T>, a: Gif<T>)
    requires load("a.gif") == Loaded(a)
    ensures ParseArgs(["a.gif"], [3]) == Ok([File("a.gif", 3)])
    ensures AllLoaded([File("a.gif", 3)], load)
    ensures Stitched([File("a.gif", 3)], load).images == a.images + a.images + a.images
    ensures Stitched([File("a.gif", 3)], load).delays == a.delays + a.delays + a.delays
  {
    assert ParseArgs(["a.gif"], [3]).value == [File("a.gif", 3)];
    StitchedSingle(File("a.gif", 3), load);
    assert Repeat(a.images, 1) == a.images;
    assert Repeat(a.delays, 1) == a.delays;
  }

  /** Two files but one loop count: a count mismatch. */
  lemma ScenarioCountMismatch()
    ensures ParseArgs(["a.gif", "b.gif"], [1]) == Err(CountMismatch(2, 1))
  {
  }

  /** A missing file fails the stitch with its name, even when its loop count
      is zero, because it is opened before the loop count is looked at. */
  lemma ScenarioMissingFile<T>(load: string -> Load<T>, rest: FileList, loops: int)
    requires load("a.gif") == OpenFailed
    ensures FirstFailure([File("a.gif", loops)] + rest, load) == Some(CannotOpen("a.gif"))
  {
  }
}
