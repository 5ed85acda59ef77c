/**
 * `create_timelapse`: check the input directory, enumerate the frames, then
 * walk them in order; a frame whose image cannot be opened or whose font
 * cannot be loaded is skipped, every other one is annotated with the label
 * of its enumeration index and appended; finally the encoder is called with
 * everything collected. Three calls in the loop sit outside any `try`: a
 * failure there raises out of create_timelapse and no video is written.
 *
 * The image library is reduced to one outcome per call and frame, bundled in
 * `Library`. An annotated frame is recorded as the source it was read from
 * and what was drawn on it; the timecode is kept as the index and seconds
 * per frame it is computed from, and `Stamp.Text` is the string drawn.
 */
module Assembler {
  import opened Wrappers
  import opened Timecode
  import opened FrameEnumerator

  /** The font size the script always asks for. */
  const FontSize: nat := 150

  datatype Font = TrueTypeFont(path: string, size: nat) | DefaultFont(size: nat)

  /** The timecode computed for enumeration index `index`; `Text()` is the string drawn. */
  datatype Stamp = Stamp(index: nat, spf: int) {
    function Text(): string {
      Label(index, spf)
    }
  }

  /** What `draw.text` put on an opened image before it was appended. */
  datatype Frame = Frame(source: string, timecode: Stamp, font: Font, color: string, position: (int, int))

  /** How one call of create_timelapse ends. */
  datatype Outcome =
    | InputDirectoryMissing
    | ListingRaised
    | NoImagesFound
    | FrameRaised
    | Encoded(frames: seq<Frame>, fps: int, outputFile: string, codec: string)

  /** The arguments that shape each frame. */
  datatype Settings = Settings(spf: int, fontFile: Option<string>, textColor: string, textPosition: (int, int))

  /**
   * Whether each library call succeeds:
   * `opens(path)`: `Image.open` (caught, the frame is skipped);
   * `drawOpens(path)`: `ImageDraw.Draw`, which loads the lazily opened pixels (not caught);
   * `fontLoads(idx)`: the font load in iteration idx (caught, the frame is skipped);
   * `renders(path)`: `draw.text` with the configured colour and `np.array` (not caught).
   */
  datatype Library = Library(
    opens: string -> bool, drawOpens: string -> bool, fontLoads: nat -> bool, renders: string -> bool)

  /** What one iteration of the loop does with its file. */
  datatype Step = Skip | Keep | Raise

  /** `if font_file:` takes the TrueType branch for a non-empty path; None and "" use the built-in font. */
  function FontFor(fontFile: Option<string>): (font: Font)
    ensures font.size == FontSize
    ensures font.TrueTypeFont? <==> fontFile.Some? && fontFile.value != []
  {
    if fontFile.Some? && fontFile.value != [] then TrueTypeFont(fontFile.value, FontSize) else DefaultFont(FontSize)
  }

  /** The frame made from the file at enumeration index i when nothing fails. */
  function FrameAt(files: seq<string>, i: nat, settings: Settings): Frame
    requires i < |files|
  {
    Frame(files[i], Stamp(i, settings.spf), FontFor(settings.fontFile), settings.textColor, settings.textPosition)
  }

  /** The fate of iteration i, in the order the calls are made. */
  function StepAt(files: seq<string>, i: nat, lib: Library): (step: Step)
    requires i < |files|
    ensures step == Keep <==> Survives(files, i, lib)
  {
    var path := files[i];
    if !lib.opens(path) then Skip
    else if !lib.drawOpens(path) then Raise
    else if !lib.fontLoads(i) then Skip
    else if !lib.renders(path) then Raise
    else Keep
  }

  /** Iteration i appends a frame: every call in it succeeds. */
  predicate Survives(files: seq<string>, i: nat, lib: Library)
    requires i < |files|
  {
    lib.opens(files[i]) && lib.drawOpens(files[i]) && lib.fontLoads(i) && lib.renders(files[i])
  }

  /** Some iteration before n raises out of the loop. */
  predicate RaisesBefore(files: seq<string>, n: nat, lib: Library)
    requires n <= |files|
  {
    exists i :: 0 <= i < n && StepAt(files, i, lib) == Raise
  }

  /** The indices among the first n whose frame survives, in increasing order. */
  function Survivors(files: seq<string>, n: nat, lib: Library): (kept: seq<nat>)
    requires n <= |files|
    ensures |kept| <= n
    ensures forall k :: 0 <= k < |kept| ==> k <= kept[k] < n && Survives(files, kept[k], lib)
    ensures forall k, l :: 0 <= k < l < |kept| ==> kept[k] < kept[l]
  {
    if n == 0 then []
    else
      var prior := Survivors(files, n - 1, lib);
      if Survives(files, n - 1, lib) then prior + [n - 1] else prior
  }

  /** The survivors are exactly the indices below n whose iteration appends a frame. */
  lemma {:induction false} SurvivorsComplete(files: seq<string>, n: nat, lib: Library)
    requires n <= |files|
    ensures forall i :: i in Survivors(files, n, lib) <==> 0 <= i < n && Survives(files, i, lib)
  {
    if n > 0 {
      SurvivorsComplete(files, n - 1, lib);
    }
  }

  /** The frames collected after the first n iterations of the loop, when none of them raised. */
  function Collected(files: seq<string>, n: nat, settings: Settings, lib: Library): (frames: seq<Frame>)
    requires n <= |files|
    ensures |frames| <= n
  {
    if n == 0 then []
    else
      Collected(files, n - 1, settings, lib)
        + (if Survives(files, n - 1, lib) then [FrameAt(files, n - 1, settings)] else [])
  }

  /** The induction behind CollectedAreSurvivors, about whole frames only. */
  lemma {:induction false} CollectedMatchesSurvivors(files: seq<string>, n: nat, settings: Settings, lib: Library)
    requires n <= |files|
    ensures var kept := Survivors(files, n, lib); var frames := Collected(files, n, settings, lib);
      |frames| == |kept| && forall k :: 0 <= k < |kept| ==> frames[k] == FrameAt(files, kept[k], settings)
  {
    if n > 0 {
      CollectedMatchesSurvivors(files, n - 1, settings, lib);
      var kept := Survivors(files, n - 1, lib);
      var frames := Collected(files, n - 1, settings, lib);
      if Survives(files, n - 1, lib) {
        var kept', frames' := kept + [n - 1], frames + [FrameAt(files, n - 1, settings)];
        assert Survivors(files, n, lib) == kept';
        assert Collected(files, n, settings, lib) == frames';
        forall k | 0 <= k < |kept'|
          ensures frames'[k] == FrameAt(files, kept'[k], settings)
        {
          if k < |kept| {
            assert frames'[k] == frames[k] && kept'[k] == kept[k];
          }
        }
      } else {
        assert Survivors(files, n, lib) == kept;
        assert Collected(files, n, settings, lib) == frames;
      }
    }
  }

  /**
   * The collected frames are the surviving files in enumeration order, each
   * labelled with its own enumeration index: a skipped frame leaves a jump
   * in the labels, not a renumbering.
   */
  lemma {:induction false} CollectedAreSurvivors(files: seq<string>, n: nat, settings: Settings, lib: Library)
    requires n <= |files|
    ensures var kept := Survivors(files, n, lib); var frames := Collected(files, n, settings, lib);
      |frames| == |kept| &&
      forall k :: 0 <= k < |kept| ==> frames[k] == FrameAt(files, kept[k], settings) && frames[k].timecode.Text() == Label(kept[k], settings.spf)
  {
    CollectedMatchesSurvivors(files, n, settings, lib);
  }

  /**
   * Every collected frame's file opened, was drawable and rendered; that its
   * font loaded too is stated per index by CollectedAreSurvivors.
   */
  lemma {:induction false} CollectedFramesOpened(files: seq<string>, settings: Settings, lib: Library)
    ensures var frames := Collected(files, |files|, settings, lib);
      forall k :: 0 <= k < |frames| ==>
        lib.opens(frames[k].source) && lib.drawOpens(frames[k].source) && lib.renders(frames[k].source)
  {
    CollectedAreSurvivors(files, |files|, settings, lib);
  }

  /**
   * When every frame is skipped (its open or its font load fails, and it did
   * not raise first), nothing raises and nothing is collected: the encoder is
   * still given the empty list.
   */
  lemma {:induction false} AllSkippedCollectsNothing(files: seq<string>, n: nat, settings: Settings, lib: Library)
    requires n <= |files|
    requires forall i :: 0 <= i < |files| ==> StepAt(files, i, lib) == Skip
    ensures !RaisesBefore(files, n, lib)
    ensures Collected(files, n, settings, lib) == []
  {
    if n > 0 {
      AllSkippedCollectsNothing(files, n - 1, settings, lib);
      assert StepAt(files, n - 1, lib) == Skip;
    }
  }

  lemma {:induction false} AllIndicesSurvive(files: seq<string>, n: nat, lib: Library)
    requires n <= |files|
    requires forall i :: 0 <= i < |files| ==> Survives(files, i, lib)
    ensures var kept := Survivors(files, n, lib); |kept| == n && forall k :: 0 <= k < n ==> kept[k] == k
  {
    if n > 0 {
      AllIndicesSurvive(files, n - 1, lib);
      assert Survives(files, n - 1, lib);
    }
  }

  /** When nothing fails, every enumerated file becomes a frame labelled with its own index. */
  lemma {:induction false} NothingSkippedCollectsAll(files: seq<string>, settings: Settings, lib: Library)
    requires forall i :: 0 <= i < |files| ==> Survives(files, i, lib)
    ensures !RaisesBefore(files, |files|, lib)
    ensures var frames := Collected(files, |files|, settings, lib);
      |frames| == |files| && forall i :: 0 <= i < |files| ==> frames[i] == FrameAt(files, i, settings)
  {
    AllIndicesSurvive(files, |files|, lib);
    CollectedAreSurvivors(files, |files|, settings, lib);
    forall i | 0 <= i < |files|
      ensures StepAt(files, i, lib) != Raise
    {
      assert Survives(files, i, lib);
    }
  }

  /**
   * The loop of lines 28-62: for each enumerated file, in order, open it,
   * set up drawing, compute the label of its index, load the font, draw,
   * convert, append. A failed open or font load moves on to the next file; a
   * failure in drawing or conversion leaves the loop (`raised`), and what
   * was collected so far is then lost with the exception.
   */
  method CollectFrames(files: seq<string>, settings: Settings, lib: Library)
    returns (images: seq<Frame>, raised: bool)
    ensures raised <==> RaisesBefore(files, |files|, lib)
    ensures !raised ==> images == Collected(files, |files|, settings, lib) && |images| <= |files|
  {
    images := [];
    for idx := 0 to |files|
      invariant images == Collected(files, idx, settings, lib)
      invariant !RaisesBefore(files, idx, lib)
    {
      var path := files[idx];
      if !lib.opens(path) {
        continue;
      }
      if !lib.drawOpens(path) {
        assert StepAt(files, idx, lib) == Raise;
        return images, true;
      }
      var timecode := Stamp(idx, settings.spf);
      var font := FontFor(settings.fontFile);
      if !lib.fontLoads(idx) {
        continue;
      }
      if !lib.renders(path) {
        assert StepAt(files, idx, lib) == Raise;
        return images, true;
      }
      images := images + [Frame(path, timecode, font, settings.textColor, settings.textPosition)];
    }
    raised := false;
  }

  /**
   * The whole of create_timelapse. `directoryExists` stands for
   * `os.path.isdir(input_dir)`; `listingSucceeds` says whether
   * `os.listdir(input_dir)`, which is not inside a `try`, returns, and
   * `entries` is what it returns then. It returns early when the directory
   * is missing or no entry is an image; it ends with the exception when the
   * listing or a frame raises; otherwise it reaches the encoder, even with
   * no frame collected.
   */
  method CreateTimelapse(
    inputDir: string, directoryExists: bool, listingSucceeds: bool, entries: seq<string>,
    outputFile: string, fps: int, settings: Settings, lib: Library)
    returns (outcome: Outcome)
    ensures !directoryExists <==> outcome == InputDirectoryMissing
    ensures outcome == ListingRaised <==> directoryExists && !listingSucceeds
    ensures outcome == NoImagesFound <==>
      directoryExists && listingSucceeds && forall k :: 0 <= k < |entries| ==> !IsImageName(entries[k])
    ensures var files := ImageFiles(inputDir, entries);
      outcome == FrameRaised <==> directoryExists && listingSucceeds && files != [] && RaisesBefore(files, |files|, lib)
    ensures outcome.Encoded? ==>
      var files := ImageFiles(inputDir, entries);
      outcome == Encoded(Collected(files, |files|, settings, lib), fps, outputFile, "libx264")
  {
    if !directoryExists {
      return InputDirectoryMissing;
    }
    if !listingSucceeds {
      return ListingRaised;
    }
    var imageFiles := ImageFiles(inputDir, entries);
    ImageFilesEmptyIff(inputDir, entries);
    if imageFiles == [] {
      return NoImagesFound;
    }
    var images, raised := CollectFrames(imageFiles, settings, lib);
    if raised {
      return FrameRaised;
    }
    outcome := Encoded(images, fps, outputFile, "libx264");
  }
}
