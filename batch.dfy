/** The rest of `main` (main.cpp): the list of image files built while
    walking the root directory, and the loop that processes them in that
    order until one of them fails.

    The directory walk and the canonicalisation of each path are I/O; their
    outcome is given: the walk as the sequence of entries in the order the
    recursive iterator yields them, each with the canonical path or `None`
    when `fs::canonical` threw. Whether the engine could be constructed and
    which images make processing throw are given too; "throw" means throwing
    an exception derived from `std::exception`, the only kind `main`
    catches. */
module Batch {
  import opened Text
  import opened Paths
  import opened Naming
  import opened CommandLine

  /** One entry of the recursive walk of the root directory. */
  datatype Entry = Entry(path: string, canonical: Option<string>)

  /** The canonical paths of the entries whose path passes `accept` and
      whose canonicalisation succeeded, in walk order. The program's list is
      this with `accept` being CheckSupportedExt; the properties of the list
      below hold for any test. */
  function Kept(walk: seq<Entry>, accept: string -> bool): seq<string>
    decreases |walk|
  {
    if walk == [] then []
    else
      var last := walk[|walk| - 1];
      Kept(walk[..|walk| - 1], accept)
        + if accept(last.path) && last.canonical.Some? then [last.canonical.value] else []
  }

  /** The list of image files the program builds from a walk. */
  function ImageFiles(walk: seq<Entry>): seq<string>
  {
    Kept(walk, CheckSupportedExt)
  }

  /** Builds the list with one `push_back` per supported entry whose
      canonicalisation succeeds; an entry whose canonicalisation fails is
      skipped and the walk goes on. */
  method CollectImageFiles(walk: seq<Entry>) returns (imgfiles: seq<string>)
    ensures imgfiles == ImageFiles(walk)
  {
    imgfiles := [];
    for i := 0 to |walk|
      invariant imgfiles == Kept(walk[..i], CheckSupportedExt)
    {
      KeptStep(walk, CheckSupportedExt, i);
      var entry := walk[i];
      if CheckSupportedExt(entry.path) {
        match entry.canonical
        case Some(canonical) =>
          imgfiles := imgfiles + [canonical];
        case None =>
      }
    }
    assert walk[..|walk|] == walk;
  }

  /** Walking one more entry adds its canonical path when it is kept. */
  lemma KeptStep(walk: seq<Entry>, accept: string -> bool, i: nat)
    requires i < |walk|
    ensures Kept(walk[..i + 1], accept) == Kept(walk[..i], accept)
      + if accept(walk[i].path) && walk[i].canonical.Some? then [walk[i].canonical.value] else []
  {
    assert walk[..i + 1][..i] == walk[..i];
  }

  /** The list of a walk made of two parts is the list of the first part
      followed by the list of the second. */
  lemma {:induction false} KeptAppend(a: seq<Entry>, b: seq<Entry>, accept: string -> bool)
    ensures Kept(a + b, accept) == Kept(a, accept) + Kept(b, accept)
    decreases |b|
  {
    if b != [] {
      var init := b[..|b| - 1];
      assert (a + b)[..|a + b| - 1] == a + init;
      KeptAppend(a, init, accept);
    } else {
      assert a + b == a;
    }
  }

  /** A path is in the list exactly when some entry of the walk passes the
      test and canonicalises to it. */
  lemma {:induction false} KeptMembers(walk: seq<Entry>, accept: string -> bool, p: string)
    ensures p in Kept(walk, accept) <==>
      exists i :: 0 <= i < |walk| && accept(walk[i].path) && walk[i].canonical == Some(p)
    decreases |walk|
  {
    if walk != [] {
      var init := walk[..|walk| - 1];
      KeptMembers(init, accept, p);
      if p in Kept(init, accept) {
        var i :| 0 <= i < |init| && accept(init[i].path) && init[i].canonical == Some(p);
        assert walk[i] == init[i];
      }
      if i :| 0 <= i < |walk| && accept(walk[i].path) && walk[i].canonical == Some(p) {
        if i < |init| {
          assert init[i] == walk[i];
        }
      }
    }
  }

  /** A kept entry stands in the list at the number of entries kept before it. */
  lemma KeptPosition(walk: seq<Entry>, accept: string -> bool, i: nat)
    requires i < |walk| && accept(walk[i].path) && walk[i].canonical.Some?
    ensures var files, before := Kept(walk, accept), |Kept(walk[..i], accept)|;
      before < |files| && files[before] == walk[i].canonical.value
  {
    KeptAppend(walk[..i + 1], walk[i + 1..], accept);
    assert walk[..i + 1] + walk[i + 1..] == walk;
    assert walk[..i + 1][..i] == walk[..i];
  }

  /** The list keeps walk order: of two kept entries, the earlier one stands
      earlier in the list. */
  lemma KeptOrder(walk: seq<Entry>, accept: string -> bool, i: nat, j: nat)
    requires i < j < |walk|
    requires accept(walk[i].path) && walk[i].canonical.Some?
    requires accept(walk[j].path) && walk[j].canonical.Some?
    ensures var files := Kept(walk, accept);
      var ni, nj := |Kept(walk[..i], accept)|, |Kept(walk[..j], accept)|;
      && ni < nj < |files|
      && files[ni] == walk[i].canonical.value
      && files[nj] == walk[j].canonical.value
  {
    KeptPosition(walk, accept, i);
    KeptPosition(walk, accept, j);
    KeptAppend(walk[..i + 1], walk[i + 1..j], accept);
    assert walk[..i + 1] + walk[i + 1..j] == walk[..j];
    assert walk[..i + 1][..i] == walk[..i];
  }

  /** The program's list holds exactly the canonical paths of the walk's
      supported entries whose canonicalisation succeeded. */
  lemma ImageFilesMembers(walk: seq<Entry>, p: string)
    ensures p in ImageFiles(walk) <==>
      exists i :: 0 <= i < |walk| && CheckSupportedExt(walk[i].path) && walk[i].canonical == Some(p)
  {
    KeptMembers(walk, CheckSupportedExt, p);
  }

  // ---------------------------------------------------------------------
  // Processing

  /** The position of the first file whose processing throws, or the number
      of files when none does. */
  function FirstFailure(files: seq<string>, failing: set<string>): (k: nat)
    ensures k <= |files|
    ensures forall i :: 0 <= i < k ==> files[i] !in failing
    ensures k < |files| ==> files[k] in failing
    decreases |files|
  {
    if files == [] || files[0] in failing then 0
    else 1 + FirstFailure(files[1..], failing)
  }

  /** The output file of each image, in order. */
  function OutputPaths(files: seq<string>, histogram: bool): (outs: seq<string>)
    ensures |outs| == |files|
    ensures forall i :: 0 <= i < |files| ==> outs[i] == OutputPath(files[i], histogram)
  {
    seq(|files|, i requires 0 <= i < |files| => OutputPath(files[i], histogram))
  }

  /** Whether the output file of `image` is left on disk once its generator
      returns. A histogram that cannot be written makes the generator throw,
      so it never returns; a statistics stream that cannot be opened or
      written is not checked, so that generator returns without a file. */
  predicate Produced(image: string, histogram: bool, unwritable: set<string>)
  {
    histogram || image !in unwritable
  }

  /** The output files left on disk by the generators that returned for
      `files`, in order. */
  function Completed(files: seq<string>, histogram: bool, unwritable: set<string>): seq<string>
    decreases |files|
  {
    if files == [] then []
    else
      var last := files[|files| - 1];
      Completed(files[..|files| - 1], histogram, unwritable)
        + if Produced(last, histogram, unwritable) then [OutputPath(last, histogram)] else []
  }

  /** An output file is on disk exactly when it belongs to a processed image
      whose output was produced. */
  lemma {:induction false} CompletedMembers(files: seq<string>, histogram: bool,
                                            unwritable: set<string>, p: string)
    ensures p in Completed(files, histogram, unwritable) <==>
      exists i :: 0 <= i < |files| && Produced(files[i], histogram, unwritable)
        && OutputPath(files[i], histogram) == p
    decreases |files|
  {
    if files != [] {
      var init := files[..|files| - 1];
      CompletedMembers(init, histogram, unwritable, p);
      if p in Completed(init, histogram, unwritable) {
        var i :| 0 <= i < |init| && Produced(init[i], histogram, unwritable)
          && OutputPath(init[i], histogram) == p;
        assert files[i] == init[i];
      }
      if i :| 0 <= i < |files| && Produced(files[i], histogram, unwritable) && OutputPath(files[i], histogram) == p {
        if i < |init| {
          assert init[i] == files[i];
        }
      }
    }
  }

  /** When histograms are drawn every processed image leaves its output. */
  lemma {:induction false} CompletedHistograms(files: seq<string>, unwritable: set<string>)
    ensures Completed(files, true, unwritable) == OutputPaths(files, true)
    decreases |files|
  {
    if files != [] {
      var init := files[..|files| - 1];
      CompletedHistograms(init, unwritable);
      assert OutputPaths(files, true) == OutputPaths(init, true) + [OutputPath(files[|files| - 1], true)];
    }
  }

  /** Processes the images in list order; the first one that throws a
      `std::exception` ends the loop. Returns the output files left on disk and whether one threw;
      a statistics file that cannot be written ends nothing. */
  method ProcessImages(files: seq<string>, histogram: bool, failing: set<string>,
                       unwritable: set<string>)
    returns (written: seq<string>, failed: bool)
    ensures var k := FirstFailure(files, failing);
      written == Completed(files[..k], histogram, unwritable) && (failed <==> k < |files|)
  {
    ghost var k := FirstFailure(files, failing);
    written, failed := [], false;
    var i := 0;
    while i < |files|
      invariant 0 <= i <= k
      invariant written == Completed(files[..i], histogram, unwritable) && !failed
    {
      if files[i] in failing {
        failed := true;
        break;
      }
      assert files[..i + 1][..i] == files[..i];
      if histogram || files[i] !in unwritable {
        written := written + [OutputPath(files[i], histogram)];
      }
      i := i + 1;
    }
  }

  /** The program's behaviour from start to end: its exit status and the
      output files it completes, in order. `walk` is the walk of the root
      path the arguments name, `engineReady` whether constructing the
      histogram engine did not throw a `std::exception`, `failing` the images
      whose processing throws one, and `unwritable` the images whose output file cannot be
      created or written. */
  method RunProgram(deviceFound: bool, argv: seq<string>, walk: seq<Entry>,
                    engineReady: bool, failing: set<string>, unwritable: set<string>)
    returns (exitCode: int, written: seq<string>)
    ensures !deviceFound ==> exitCode == 1 && written == []
    ensures SelectMode(deviceFound, argv) == Usage ==> exitCode == 0 && written == []
    ensures SelectMode(deviceFound, argv).Run? ==>
      var files := ImageFiles(walk);
      var k := if engineReady then FirstFailure(files, failing) else 0;
      && written == Completed(files[..k], SelectMode(deviceFound, argv).histogram, unwritable)
      && (exitCode == 0 <==> engineReady && k == |files|)
      && (exitCode != 0 ==> exitCode == 1)
  {
    var mode := SelectMode(deviceFound, argv);
    if !mode.Run? {
      return EarlyExitCode(mode), [];
    }
    var imgfiles := CollectImageFiles(walk);
    if !engineReady {
      return 1, [];
    }
    var failed;
    written, failed := ProcessImages(imgfiles, mode.histogram, failing, unwritable);
    exitCode := if failed then 1 else 0;
  }
}
