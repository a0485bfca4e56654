/** From save containers to the registry (MultipleMaidsConverter/Program.cs,
    `ConvertPng` and `GetConversionMode`): every container given on the
    command line that converts becomes the next slot `n`, with keys `s<n>`
    and `ss<n>`, and `scene_max` is the slot count rounded up to a hundred. */
module Batch {
  import opened Common
  import opened Container
  import opened Text
  import opened Library
  import opened Slots

  /** A command-line argument: its path and, when a file exists there, the
      file's bytes. */
  datatype InputFile = InputFile(path: string, contents: Option<seq<byte>>)

  /** The extension of `path`, compared case-insensitively, is `e`. */
  predicate HasExtension(path: string, e: string)
  {
    Lower(GetExtension(path)) == e
  }

  /** `Array.Exists` over the arguments for a `.png` extension. */
  function AnyPng(args: seq<string>): (r: bool)
    ensures r <==> exists i :: 0 <= i < |args| && HasExtension(args[i], ".png")
  {
    if args == [] then false
    else
      var rest := AnyPng(args[1..]);
      assert forall i :: 1 <= i < |args| ==> args[i] == args[1..][i - 1];
      HasExtension(args[0], ".png") || rest
  }

  /** `GetConversionMode`: a first argument ending in `.ini` selects the
      registry direction; otherwise any argument ending in `.png` selects the
      container direction; anything else, including no arguments, is Error. */
  function GetConversionMode(args: seq<string>): (m: Mode)
    ensures m.Ini? <==> |args| > 0 && HasExtension(args[0], ".ini")
    ensures m.Png? <==> |args| > 0 && !HasExtension(args[0], ".ini") && AnyPng(args)
    ensures !m.Success?
  {
    if |args| > 0 then
      if HasExtension(args[0], ".ini") then Ini
      else if AnyPng(args) then Png
      else Error
    else Error
  }

  /** `path` ends with `e` up to the case of letters. */
  predicate EndsWith(path: string, e: string)
  {
    |path| >= |e| && Lower(path[|path| - |e|..]) == e
  }

  /** For `.ini` and `.png`, having the extension is ending with it. */
  lemma HasExtensionBySuffix(path: string, e: string)
    requires e == ".ini" || e == ".png"
    ensures HasExtension(path, e) <==> EndsWith(path, e)
  {
    assert IsPlainExtension(e) by {
      assert |e| == 4 && e[0] == '.';
      assert forall i :: 1 <= i < 4 ==> 'a' <= e[i] <= 'z';
    }
    ExtensionIsSuffix(path, e);
  }

  /** The mode depends only on how the arguments end. */
  lemma ModeBySuffix(args: seq<string>)
    requires |args| > 0
    ensures GetConversionMode(args).Ini? <==> EndsWith(args[0], ".ini")
    ensures GetConversionMode(args).Png? <==>
      !EndsWith(args[0], ".ini") && exists i :: 0 <= i < |args| && EndsWith(args[i], ".png")
  {
    HasExtensionBySuffix(args[0], ".ini");
    forall i | 0 <= i < |args|
      ensures HasExtension(args[i], ".png") <==> EndsWith(args[i], ".png")
    {
      HasExtensionBySuffix(args[i], ".png");
    }
  }

  /** Every file the registry direction writes is picked up by the container
      direction. */
  lemma SlotFileSelectsPng(index: int, stamp: Stamp)
    ensures GetConversionMode([SlotName(index, stamp)]) == Png
  {
    SlotNameExtension(index, stamp);
    assert Lower(".png") == ".png";
    assert Lower(".png") != ".ini";
  }

  /** `scene_max`: the slot count rounded up to a multiple of 100. */
  function SceneMax(n: nat): (m: nat)
    ensures m % 100 == 0 && n <= m < n + 100
  {
    (n + 99) / 100 * 100
  }

  /** `SceneMax` is the least multiple of 100 that is at least `n`. */
  lemma SceneMaxLeast(n: nat, m: nat)
    requires m % 100 == 0 && n <= m
    ensures SceneMax(n) <= m
  {
  }

  /** What converting one argument gives: arguments that are not existing
      `.png` files are passed over like containers that do not convert. */
  function FileOutcome(env: Env, f: InputFile): SceneResult
  {
    if f.contents.None? || !HasExtension(f.path, ".png") then NotConverted
    else PngToScene(env.coder, f.contents.value)
  }

  /** The outcome of each argument, in order: a map of `FileOutcome`. */
  function FileOutcomes(env: Env, files: seq<InputFile>): (rs: seq<SceneResult>)
    ensures |rs| == |files|
    ensures forall i :: 0 <= i < |files| ==> rs[i] == FileOutcome(env, files[i])
  {
    seq(|files|, i requires 0 <= i < |files| => FileOutcome(env, files[i]))
  }

  /** The state of the loop of `ConvertPng`: the slots filled so far, the
      keys written to the `scene` section, and the exception that ended the
      run if one did. */
  datatype PngState = PngState(count: nat, scene: Section, failure: Option<Failure>)

  /** One pass of the loop: a converted container fills the next slot. */
  function Accept(env: Env, st: PngState, r: SceneResult): PngState
  {
    if st.failure.Some? then st
    else match r
      case NotConverted => st
      case Threw(e) => st.(failure := Some(e))
      case Converted(scene, shot) =>
        var index := st.count + 1;
        PngState(index, st.scene + [Entry(SceneKey(index), env.utf8Text(scene)),
                                    Entry(ScreenshotKey(index), env.toBase64(shot))], None)
  }

  /** The loop over the outcomes of the arguments, in order. */
  function Accumulate(env: Env, rs: seq<SceneResult>): PngState
  {
    if rs == [] then PngState(0, [], None)
    else Accept(env, Accumulate(env, rs[..|rs| - 1]), rs[|rs| - 1])
  }

  /** The scenes and screenshots of the containers that convert, in order. */
  function Conversions(rs: seq<SceneResult>): seq<SceneResult>
  {
    if rs == [] then []
    else Conversions(rs[..|rs| - 1]) + (if rs[|rs| - 1].Converted? then [rs[|rs| - 1]] else [])
  }

  /** The registry file `ConvertPng` saves: `scene_max` in `config`, and the
      `scene` section once a slot has been filled. */
  function SavedIni(st: PngState): IniFile
  {
    var config := map["config" := [Entry("scene_max", DecimalString(SceneMax(st.count)))]];
    if st.count == 0 then config else config["scene" := st.scene]
  }

  /** `ConvertPng` on the arguments: how the run ends and the registry file
      it saves, if it gets that far. */
  function PngRun(env: Env, files: seq<InputFile>): (RunResult, Option<IniFile>)
  {
    var st := Accumulate(env, FileOutcomes(env, files));
    match st.failure
    case Some(e) => (Aborted(e), None)
    case None => (Finished(if st.count == 0 then Error else Mode.Success), Some(SavedIni(st)))
  }

  /** The entry at position `j` of the `scene` section is slot `j / 2 + 1`:
      its scene text at even positions, its screenshot at odd ones. */
  ghost predicate SlotEntries(env: Env, conversions: seq<SceneResult>, scene: Section)
  {
    |scene| == 2 * |conversions| &&
    forall j :: 0 <= j < |scene| ==>
      conversions[j / 2].Converted? &&
      scene[j] == if j % 2 == 0
        then Entry(SceneKey(j / 2 + 1), env.utf8Text(conversions[j / 2].scene))
        else Entry(ScreenshotKey(j / 2 + 1), env.toBase64(conversions[j / 2].screenshot))
  }

  /** One more container adds its slot's two entries after the others. */
  lemma SlotEntriesSnoc(env: Env, cs: seq<SceneResult>, scene: Section, scene': Section, r: SceneResult)
    requires SlotEntries(env, cs, scene) && r.Converted?
    requires scene' == scene + [Entry(SceneKey(|cs| + 1), env.utf8Text(r.scene)),
                                Entry(ScreenshotKey(|cs| + 1), env.toBase64(r.screenshot))]
    ensures SlotEntries(env, cs + [r], scene')
  {
    var cs' := cs + [r];
    forall j | 0 <= j < |scene'|
      ensures cs'[j / 2].Converted?
      ensures scene'[j] == if j % 2 == 0
        then Entry(SceneKey(j / 2 + 1), env.utf8Text(cs'[j / 2].scene))
        else Entry(ScreenshotKey(j / 2 + 1), env.toBase64(cs'[j / 2].screenshot))
    {
      if j < |scene| {
        assert scene'[j] == scene[j] && cs'[j / 2] == cs[j / 2];
      } else {
        assert j / 2 == |cs|;
      }
    }
  }

  /** Without an exception the loop fills exactly one slot per converting
      container, in order, and the section holds their keys `s1`, `ss1`, ...
      with the scene text and the base-64 screenshot. */
  lemma {:induction false} AccumulateSlots(env: Env, rs: seq<SceneResult>)
    ensures var st := Accumulate(env, rs);
      st.failure.None? ==>
        st.count == |Conversions(rs)| && SlotEntries(env, Conversions(rs), st.scene)
  {
    if rs != [] {
      var init := rs[..|rs| - 1];
      AccumulateSlots(env, init);
      var st0 := Accumulate(env, init);
      var r := rs[|rs| - 1];
      if st0.failure.None? && r.Converted? {
        SlotEntriesSnoc(env, Conversions(init), st0.scene, Accumulate(env, rs).scene, r);
      }
    }
  }

  /** The run ends in an exception exactly when some container found its
      `IEND` and then failed to decode. */
  lemma {:induction false} AccumulateFailure(env: Env, rs: seq<SceneResult>)
    ensures Accumulate(env, rs).failure.None? <==> forall k :: 0 <= k < |rs| ==> !rs[k].Threw?
  {
    if rs != [] {
      var init := rs[..|rs| - 1];
      AccumulateFailure(env, init);
      assert forall k :: 0 <= k < |init| ==> rs[k] == init[k];
    }
  }

  /** Without an exception, the run is Error exactly when no container
      converted, saves `scene_max` as the least multiple of 100 at or above
      the number that did, and has their slots in its `scene` section. */
  lemma PngRunResult(env: Env, files: seq<InputFile>)
    requires forall k :: 0 <= k < |files| ==> !FileOutcome(env, files[k]).Threw?
    ensures var (result, saved) := PngRun(env, files);
      var n := |Conversions(FileOutcomes(env, files))|;
      saved.Some? &&
      (result == Finished(Error) <==> n == 0) &&
      (result == Finished(Mode.Success) <==> n > 0) &&
      saved.value["config"] == [Entry("scene_max", DecimalString(SceneMax(n)))] &&
      ("scene" in saved.value <==> n > 0) &&
      (n > 0 ==> SlotEntries(env, Conversions(FileOutcomes(env, files)), saved.value["scene"]))
  {
    var rs := FileOutcomes(env, files);
    AccumulateFailure(env, rs);
    AccumulateSlots(env, rs);
  }

  /** The keys `ConvertPng` writes are read back by `ConvertIni` as the slots
      `1` to `n`, each named by one `s` key and one `ss` key. */
  lemma SlotKeysReadBack(env: Env, cs: seq<SceneResult>, scene: Section)
    requires SlotEntries(env, cs, scene) && |cs| <= Int32Max
    ensures forall j :: 0 <= j < |scene| ==>
      |scene[j].key| >= 2 && scene[j].key[0] == 's' &&
      KeyIndex(scene[j].key) == Result.Success(j / 2 + 1)
  {
    forall j | 0 <= j < |scene|
      ensures |scene[j].key| >= 2 && scene[j].key[0] == 's'
      ensures KeyIndex(scene[j].key) == Result.Success(j / 2 + 1)
    {
      KeyIndexOfSlotKeys(j / 2 + 1);
    }
  }

  /** The loop of `ConvertPng` one argument further on. */
  lemma AccumulateSnoc(env: Env, rs: seq<SceneResult>, i: nat)
    requires i < |rs|
    ensures Accumulate(env, rs[..i + 1]) == Accept(env, Accumulate(env, rs[..i]), rs[i])
  {
    assert rs[..i + 1][..i] == rs[..i];
  }

  /** The body of the loop of `ConvertPng`: one argument, with `index` the
      next free slot. */
  method ConvertFile(env: Env, png: InputFile, index: nat, scene: Section)
    returns (index': nat, scene': Section, failure: Option<Failure>)
    requires index >= 1
    ensures index' >= 1
    ensures Accept(env, PngState(index - 1, scene, None), FileOutcome(env, png)) ==
      PngState(index' - 1, scene', failure)
  {
    index', scene', failure := index, scene, None;
    if png.contents.None? || !HasExtension(png.path, ".png") {
      return;
    }
    var sceneData := ConvertPngToScene(env.coder, png.contents.value);
    match sceneData
    case NotConverted =>
    case Threw(e) =>
      failure := Some(e);
    case Converted(s, shot) =>
      scene' := scene + [Entry(SceneKey(index), env.utf8Text(s)), Entry(ScreenshotKey(index), env.toBase64(shot))];
      index' := index + 1;
  }

  /** `ConvertPng`: fills the next slot with every argument that is an
      existing `.png` file and converts, then saves `scene_max` and the
      slots. An exception from a container ends the run before the save. */
  method ConvertPng(env: Env, pngs: seq<InputFile>) returns (result: RunResult, saved: Option<IniFile>)
    ensures (result, saved) == PngRun(env, pngs)
  {
    ghost var rs := FileOutcomes(env, pngs);
    var index: nat := 1;
    var scene: Section := [];
    for i := 0 to |pngs|
      invariant Accumulate(env, rs[..i]) == PngState(index - 1, scene, None)
      invariant index >= 1
    {
      AccumulateSnoc(env, rs, i);
      var failure;
      index, scene, failure := ConvertFile(env, pngs[i], index, scene);
      if failure.Some? {
        AccumulateStops(env, rs, i + 1);
        return Aborted(failure.value), None;
      }
    }
    assert rs[..|pngs|] == rs;
    saved := Some(SavedIni(PngState(index - 1, scene, None)));
    result := Finished(if index == 1 then Error else Mode.Success);
  }

  /** After an exception the remaining arguments are not looked at. */
  lemma {:induction false} AccumulateStops(env: Env, rs: seq<SceneResult>, j: nat)
    requires j <= |rs| && Accumulate(env, rs[..j]).failure.Some?
    ensures Accumulate(env, rs) == Accumulate(env, rs[..j])
    decreases |rs|
  {
    if j < |rs| {
      var init := rs[..|rs| - 1];
      assert init[..j] == rs[..j];
      AccumulateStops(env, init, j);
    } else {
      assert rs[..j] == rs;
    }
  }
}
