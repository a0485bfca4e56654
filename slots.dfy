/** From the registry to save containers (MultipleMaidsConverter/Program.cs,
    `ConvertIni` and `ConvertSceneToPng`): every key of the `scene` section
    names a slot `s<n>` (the scene text) or `ss<n>` (the screenshot in
    base 64); each slot is converted once, into a file `s<n>_<date>.png`
    holding the screenshot followed by the LZMA frame of the scene. */
module Slots {
  import opened Common
  import opened Lzma
  import opened Container
  import opened Text
  import opened Library

  /** One key of a registry section and its raw value. */
  datatype Entry = Entry(key: string, value: string)

  /** A registry section: its keys in file order. */
  type Section = seq<Entry>

  /** A registry file: its sections by name. */
  type IniFile = map<string, Section>

  /** The key names of a section, in order: a map over its entries. */
  function Keys(section: Section): (keys: seq<string>)
    ensures |keys| == |section|
    ensures forall i :: 0 <= i < |section| ==> keys[i] == section[i].key
  {
    seq(|section|, i requires 0 <= i < |section| => section[i].key)
  }

  /** `GetKey(name)?.RawValue`: the value of the first key called `name`, or
      nothing when there is none. */
  function Lookup(section: Section, name: string): (r: Option<string>)
    ensures r.None? <==> forall i :: 0 <= i < |section| ==> section[i].key != name
    ensures r.Some? ==>
      exists i :: 0 <= i < |section| && section[i] == Entry(name, r.value) &&
        forall j :: 0 <= j < i ==> section[j].key != name
  {
    if section == [] then None
    else if section[0].key == name then Some(section[0].value)
    else
      var r := Lookup(section[1..], name);
      assert forall i :: 1 <= i < |section| ==> section[i] == section[1..][i - 1];
      r
  }

  /** `String.IsNullOrEmpty` on a looked-up value. */
  predicate IsNullOrEmpty(v: Option<string>)
  {
    v.None? || v.value == ""
  }

  /** The key of a slot's scene and of its screenshot. */
  function SceneKey(index: int): string { "s" + DecimalString(index) }
  function ScreenshotKey(index: int): string { "ss" + DecimalString(index) }

  /** The output file name `s<index>_<yyyyMMddHHmm>.png`. */
  function SlotName(index: int, stamp: Stamp): string
  {
    "s" + DecimalString(index) + "_" + stamp + ".png"
  }

  /** A file the run creates. */
  datatype OutFile = OutFile(index: int, name: string, contents: seq<byte>)

  /** What `ConvertSceneToPng` does with one slot. */
  datatype SlotOutcome =
    | Kankyo                     // index 10000 and above: an environment save
    | QuickSave                  // index 9999
    | NoScene                    // the scene key is missing or empty
    | Written(file: OutFile)
    | SlotThrew(failure: Failure)

  /** Every output name ends in the extension `.png`. */
  lemma SlotNameExtension(index: int, stamp: Stamp)
    ensures GetExtension(SlotName(index, stamp)) == ".png"
  {
    var name := SlotName(index, stamp);
    var k := |name| - 4;
    assert name[k..] == ".png";
    assert name[k] == '.' && name[k + 1] == 'p' && name[k + 2] == 'n' && name[k + 3] == 'g';
    DotIndexIs(name, k);
  }

  /** Two strings split at their first `_` are equal only when the parts
      before it and the parts after it are. */
  lemma SplitAtUnderscore(x: string, p: string, y: string, q: string)
    requires forall k :: 0 <= k < |x| ==> x[k] != '_'
    requires forall k :: 0 <= k < |y| ==> y[k] != '_'
    requires x + "_" + p == y + "_" + q
    ensures x == y && p == q
  {
    var n := x + "_" + p;
    assert forall k :: 0 <= k < |x| ==> n[k] == x[k];
    assert forall k :: 0 <= k < |y| ==> n[k] == y[k];
    assert n[|x|] == '_' == n[|y|];
    assert x == n[..|x|] == y;
    assert p == n[|x| + 1..] == q;
  }

  /** Different slots, or different dates, never share an output name: the
      index ends at the first `_`, which no decimal form contains. */
  lemma SlotNameInjective(i: int, a: Stamp, j: int, b: Stamp)
    requires SlotName(i, a) == SlotName(j, b)
    ensures i == j && a == b
  {
    var di, dj := DecimalString(i), DecimalString(j);
    assert SlotName(i, a)[1..] == di + "_" + (a + ".png");
    assert SlotName(j, b)[1..] == dj + "_" + (b + ".png");
    SplitAtUnderscore(di, a + ".png", dj, b + ".png");
    DecimalInjective(i, j);
    assert a == (a + ".png")[..12] == (b + ".png")[..12] == b;
  }

  /** The screenshot of a slot: the embedded default image when the key is
      missing or empty, otherwise the decoded base-64 text (`None` when the
      decoder throws). */
  function SlotScreenshot(env: Env, index: int, section: Section): Option<seq<byte>>
  {
    var shot := Lookup(section, ScreenshotKey(index));
    if IsNullOrEmpty(shot) then Some(env.defaultImage) else env.fromBase64(shot.value)
  }

  /** `ConvertSceneToPng` on one slot, checked in the source's order: the
      index ranges first, then the scene text, then the screenshot and the
      date. A written file holds the screenshot followed by the frame of the
      scene's ASCII bytes. */
  function SceneToPng(env: Env, index: int, section: Section): (r: SlotOutcome)
    ensures r.Kankyo? <==> index >= 10000
    ensures r.QuickSave? <==> index == 9999
    ensures r.NoScene? <==> index < 9999 && IsNullOrEmpty(Lookup(section, SceneKey(index)))
    ensures r.Written? ==> r.file.index == index && GetExtension(r.file.name) == ".png"
  {
    var scene := Lookup(section, SceneKey(index));
    if index >= 10000 then Kankyo
    else if index == 9999 then QuickSave
    else if IsNullOrEmpty(scene) then NoScene
    else
      var sceneBuffer := Frame(env.coder, env.asciiBytes(scene.value));
      match SlotScreenshot(env, index, section)
      case None => SlotThrew(BadBase64)
      case Some(screenshot) =>
        match env.dateStamp(FirstField(scene.value))
        case None => SlotThrew(BadDate)
        case Some(stamp) =>
          SlotNameExtension(index, stamp);
          Written(OutFile(index, SlotName(index, stamp), screenshot + sceneBuffer))
  }

  /** A written slot file has the slot's name for the date of the scene's
      first field, and holds the screenshot then the frame of the scene. */
  lemma WrittenSlot(env: Env, index: int, section: Section, f: OutFile)
    requires SceneToPng(env, index, section) == Written(f)
    ensures var scene := Lookup(section, SceneKey(index));
      scene.Some? && scene.value != "" &&
      env.dateStamp(FirstField(scene.value)).Some? &&
      f.name == SlotName(index, env.dateStamp(FirstField(scene.value)).value)
    ensures SlotScreenshot(env, index, section).Some?
    ensures f.contents == SlotScreenshot(env, index, section).value
      + Frame(env.coder, env.asciiBytes(Lookup(section, SceneKey(index)).value))
  {
  }

  /** The converse of `WrittenSlot`: a slot below the quick save with a
      scene, a screenshot that decodes (or none) and a first field the date
      parser accepts is written, under its name and with its contents. */
  lemma SceneToPngWritten(env: Env, index: int, section: Section)
    requires index < 9999
    requires !IsNullOrEmpty(Lookup(section, SceneKey(index)))
    requires SlotScreenshot(env, index, section).Some?
    requires env.dateStamp(FirstField(Lookup(section, SceneKey(index)).value)).Some?
    ensures var scene := Lookup(section, SceneKey(index)).value;
      SceneToPng(env, index, section) == Written(OutFile(index,
        SlotName(index, env.dateStamp(FirstField(scene)).value),
        SlotScreenshot(env, index, section).value + Frame(env.coder, env.asciiBytes(scene))))
  {
  }

  /** A slot with a scene throws `BadBase64` exactly when its screenshot
      does not decode, and `BadDate` exactly when the screenshot decodes but
      the scene's first field is not a date. */
  lemma SceneToPngThrows(env: Env, index: int, section: Section)
    ensures SceneToPng(env, index, section) == SlotThrew(BadBase64) <==>
      index < 9999 && !IsNullOrEmpty(Lookup(section, SceneKey(index))) &&
      SlotScreenshot(env, index, section).None?
    ensures SceneToPng(env, index, section) == SlotThrew(BadDate) <==>
      index < 9999 && !IsNullOrEmpty(Lookup(section, SceneKey(index))) &&
      SlotScreenshot(env, index, section).Some? &&
      env.dateStamp(FirstField(Lookup(section, SceneKey(index)).value)).None?
    ensures SceneToPng(env, index, section).SlotThrew? ==>
      SceneToPng(env, index, section).failure in {BadBase64, BadDate}
  {
  }

  /** A screenshot that a container can carry unchanged: a PNG signature
      and the first `IEND` in its last 8 bytes, as in any PNG whose image data
      does not happen to contain those four letters. */
  predicate EndsAtFirstIend(shot: seq<byte>)
  {
    HasPngHeader(shot) && FirstIend(shot) == Some(|shot| - 8)
  }

  /** Reading back a written slot file gives the scene's ASCII bytes and the
      slot's screenshot, provided the screenshot ends at its first `IEND` and
      the LZMA library inverts its own encoding. */
  lemma SlotRoundTrip(env: Env, index: int, section: Section, f: OutFile)
    requires SceneToPng(env, index, section) == Written(f)
    requires EndsAtFirstIend(SlotScreenshot(env, index, section).value)
    requires var raw := env.asciiBytes(Lookup(section, SceneKey(index)).value);
      |raw| < TwoTo63 && Inverts(env.coder, raw)
    ensures PngToScene(env.coder, f.contents) == Converted(
      env.asciiBytes(Lookup(section, SceneKey(index)).value),
      SlotScreenshot(env, index, section).value)
  {
    WrittenSlot(env, index, section, f);
    var shot := SlotScreenshot(env, index, section).value;
    var raw := env.asciiBytes(Lookup(section, SceneKey(index)).value);
    assert f.contents == shot + Frame(env.coder, raw);
    ContainerRoundTrip(env.coder, shot, raw);
  }

  /** `ConvertSceneToPng`: classifies the slot, compresses the scene, decodes
      the screenshot, formats the date and writes the file. */
  method ConvertSceneToPng(env: Env, index: int, section: Section) returns (r: SlotOutcome)
    ensures r == SceneToPng(env, index, section)
  {
    var sceneString := Lookup(section, SceneKey(index));
    var screenshotString := Lookup(section, ScreenshotKey(index));
    if index >= 10000 {
      return Kankyo;
    } else if index == 9999 {
      return QuickSave;
    }
    if IsNullOrEmpty(sceneString) {
      return NoScene;
    }
    var sceneBuffer := Compress(env.coder, env.asciiBytes(sceneString.value));
    var screenshotBuffer := env.defaultImage;
    if !IsNullOrEmpty(screenshotString) {
      var decoded := env.fromBase64(screenshotString.value);
      if decoded.None? {
        return SlotThrew(BadBase64);
      }
      screenshotBuffer := decoded.value;
    }
    var date := env.dateStamp(FirstField(sceneString.value));
    if date.None? {
      return SlotThrew(BadDate);
    }
    var savePngFilename := SlotName(index, date.value);
    SlotNameExtension(index, date.value);
    r := Written(OutFile(index, savePngFilename, screenshotBuffer + sceneBuffer));
  }

  /** The index a key starting with `s` names: the number after `ss` when
      the second character is also `s`, otherwise after `s`. A one-character
      key fails on reading its second character. */
  function KeyIndex(key: string): (r: Result<int, Failure>)
    requires |key| > 0 && key[0] == 's'
    ensures |key| < 2 ==> r == Failure(IndexOutOfRange)
    ensures r.Success? ==> Int32Min <= r.value <= Int32Max
  {
    if |key| < 2 then Failure(IndexOutOfRange)
    else ParseInt32(key[if key[1] == 's' then 2 else 1..])
  }

  /** The scene key `s<n>` names slot `n`: the character after `s` is a
      digit or a minus sign, never a second `s`. */
  lemma SceneKeyIndex(n: int)
    requires Int32Min <= n <= Int32Max
    ensures KeyIndex(SceneKey(n)) == Result.Success(n)
  {
    var d := DecimalString(n);
    var key := SceneKey(n);
    ParseDecimal(n);
    assert key[1] == d[0] != 's';
    assert key[1..] == d;
  }

  /** The screenshot key `ss<n>` names slot `n`. */
  lemma ScreenshotKeyIndex(n: int)
    requires Int32Min <= n <= Int32Max
    ensures KeyIndex(ScreenshotKey(n)) == Result.Success(n)
  {
    var d := DecimalString(n);
    var key := ScreenshotKey(n);
    ParseDecimal(n);
    assert key[1] == 's';
    assert key[2..] == d;
  }

  /** A slot's scene key and screenshot key both name the slot. */
  lemma KeyIndexOfSlotKeys(n: int)
    requires Int32Min <= n <= Int32Max
    ensures KeyIndex(SceneKey(n)) == Result.Success(n)
    ensures KeyIndex(ScreenshotKey(n)) == Result.Success(n)
  {
    SceneKeyIndex(n);
    ScreenshotKeyIndex(n);
  }

  /** The state of the key loop of `ConvertIni`: the indexes seen, the files
      written so far, and how the run ended if it already has. */
  datatype IniState = IniState(seen: set<int>, written: seq<OutFile>, stop: Option<RunResult>)

  /** What a key means to the loop: the index it names, or how it ends the
      run. An empty key fails on reading its first character; a key not
      starting with `s` ends the run with Error. */
  function KeyAction(key: string): Result<int, RunResult>
  {
    if |key| == 0 then Failure(Aborted(IndexOutOfRange))
    else if key[0] != 's' then Failure(Finished(Error))
    else match KeyIndex(key)
      case Failure(e) => Failure(Aborted(e))
      case Success(index) => Result.Success(index)
  }

  /** The loop reaching a slot index: an index already seen is passed over,
      otherwise it is remembered and its slot converted. */
  function Visit(slot: int -> SlotOutcome, st: IniState, index: int): IniState
  {
    if index in st.seen then st
    else
      var next := st.(seen := st.seen + {index});
      match slot(index)
      case Written(f) => next.(written := next.written + [f])
      case SlotThrew(e) => next.(stop := Some(Aborted(e)))
      case _ => next
  }

  /** What the key loop does next: the run has already ended, or it reads
      a key whose action is `action`. */
  function Advance(slot: int -> SlotOutcome, st: IniState, action: Result<int, RunResult>): IniState
  {
    if st.stop.Some? then st
    else match action
      case Failure(r) => st.(stop := Some(r))
      case Success(index) => Visit(slot, st, index)
  }

  /** The action of each key, in order: a map of `KeyAction`. */
  function KeyActions(keys: seq<string>): (actions: seq<Result<int, RunResult>>)
    ensures |actions| == |keys|
    ensures forall i :: 0 <= i < |keys| ==> actions[i] == KeyAction(keys[i])
  {
    seq(|keys|, i requires 0 <= i < |keys| => KeyAction(keys[i]))
  }

  /** The key loop over keys with the actions `actions`, where `slot`
      converts one slot. */
  function Steps(slot: int -> SlotOutcome, actions: seq<Result<int, RunResult>>): IniState
  {
    if actions == [] then IniState({}, [], None)
    else Advance(slot, Steps(slot, actions[..|actions| - 1]), actions[|actions| - 1])
  }

  /** `ConvertSceneToPng` on the slots of one section. */
  function SlotOf(env: Env, section: Section): int -> SlotOutcome
  {
    n => SceneToPng(env, n, section)
  }

  /** The key loop of `ConvertIni` over the `scene` section. */
  function SceneLoop(env: Env, section: Section): IniState
  {
    Steps(SlotOf(env, section), KeyActions(Keys(section)))
  }

  /** `ConvertIni` on a registry file (`None` when the file does not exist):
      how the run ends and the files it writes, in order. */
  function IniRun(env: Env, ini: Option<IniFile>): (RunResult, seq<OutFile>)
  {
    if ini.None? || "scene" !in ini.value then (Finished(Error), [])
    else
      var st := SceneLoop(env, ini.value["scene"]);
      (if st.stop.Some? then st.stop.value else Finished(Mode.Success), st.written)
  }

  /** Once the loop has stopped, the remaining keys change nothing. */
  lemma {:induction false} StopSticky(slot: int -> SlotOutcome, actions: seq<Result<int, RunResult>>, j: nat)
    requires j <= |actions| && Steps(slot, actions[..j]).stop.Some?
    ensures Steps(slot, actions) == Steps(slot, actions[..j])
    decreases |actions|
  {
    if j < |actions| {
      var init := actions[..|actions| - 1];
      assert init[..j] == actions[..j];
      StopSticky(slot, init, j);
    } else {
      assert actions[..j] == actions;
    }
  }

  /** The loop over one more key is one more step. */
  lemma StepsSnoc(slot: int -> SlotOutcome, actions: seq<Result<int, RunResult>>, i: nat)
    requires i < |actions|
    ensures Steps(slot, actions[..i + 1]) == Advance(slot, Steps(slot, actions[..i]), actions[i])
  {
    assert actions[..i + 1][..i] == actions[..i];
  }

  /** The step that ends the loop decides how it ends. */
  lemma StepsStopAt(slot: int -> SlotOutcome, actions: seq<Result<int, RunResult>>, j: nat, r: RunResult)
    requires j < |actions| && Steps(slot, actions[..j]).stop.None?
    requires Advance(slot, Steps(slot, actions[..j]), actions[j]).stop == Some(r)
    ensures Steps(slot, actions).stop == Some(r)
  {
    StepsSnoc(slot, actions, j);
    StopSticky(slot, actions, j + 1);
  }

  /** Reaching an unseen index whose slot throws ends the loop with that
      exception. */
  lemma StepsThrowAt(slot: int -> SlotOutcome, actions: seq<Result<int, RunResult>>, j: nat, n: int)
    requires j < |actions| && actions[j] == Result.Success(n)
    requires Steps(slot, actions[..j]).stop.None? && n !in Steps(slot, actions[..j]).seen
    requires slot(n).SlotThrew?
    ensures Steps(slot, actions).stop == Some(Aborted(slot(n).failure))
  {
    StepsStopAt(slot, actions, j, Aborted(slot(n).failure));
  }

  /** What the loop keeps true: each written file is the file of its slot,
      its index has been seen, no two are for the same slot, and every seen
      slot that has a file has it written. */
  ghost predicate Consistent(slot: int -> SlotOutcome, st: IniState)
  {
    (forall k :: 0 <= k < |st.written| ==>
      st.written[k].index in st.seen && slot(st.written[k].index) == Written(st.written[k])) &&
    (forall k, l :: 0 <= k < l < |st.written| ==> st.written[k].index != st.written[l].index) &&
    (forall n :: n in st.seen && slot(n).Written? ==> slot(n).file in st.written)
  }

  /** Each slot's file carries the slot's own index. */
  ghost predicate Indexed(slot: int -> SlotOutcome)
  {
    forall n :: slot(n).Written? ==> slot(n).file.index == n
  }

  lemma VisitConsistent(slot: int -> SlotOutcome, st: IniState, index: int)
    requires Indexed(slot) && Consistent(slot, st)
    ensures Consistent(slot, Visit(slot, st, index))
    ensures st.seen + {index} <= Visit(slot, st, index).seen
  {
    if index !in st.seen && slot(index).Written? {
      var f := slot(index).file;
      var w := st.written + [f];
      assert f.index == index;
      assert forall k :: 0 <= k < |st.written| ==> w[k] == st.written[k] && w[k].index != index;
    }
  }

  lemma {:induction false} StepsConsistent(slot: int -> SlotOutcome, actions: seq<Result<int, RunResult>>)
    requires Indexed(slot)
    ensures Consistent(slot, Steps(slot, actions))
  {
    if actions != [] {
      var st0 := Steps(slot, actions[..|actions| - 1]);
      StepsConsistent(slot, actions[..|actions| - 1]);
      var action := actions[|actions| - 1];
      if st0.stop.None? && action.Success? {
        VisitConsistent(slot, st0, action.value);
      }
    }
  }

  /** A loop that has not stopped has met only keys that name an index, and
      has seen each of those indexes. */
  lemma {:induction false} StepsAccepted(slot: int -> SlotOutcome, actions: seq<Result<int, RunResult>>)
    requires Indexed(slot)
    ensures Steps(slot, actions).stop.None? ==>
      forall k :: 0 <= k < |actions| ==> actions[k].Success? && actions[k].value in Steps(slot, actions).seen
  {
    if actions != [] {
      var init := actions[..|actions| - 1];
      var st0 := Steps(slot, init);
      var st := Steps(slot, actions);
      StepsAccepted(slot, init);
      StepsConsistent(slot, init);
      if st.stop.None? {
        var action := actions[|actions| - 1];
        assert st0.stop.None? && action.Success?;
        VisitConsistent(slot, st0, action.value);
        forall k | 0 <= k < |init|
          ensures actions[k].Success? && actions[k].value in st.seen
        {
          assert actions[k] == init[k];
        }
      }
    }
  }

  /** No key ends the run with Success: only running out of keys does. */
  lemma {:induction false} StepsStop(slot: int -> SlotOutcome, actions: seq<Result<int, RunResult>>)
    requires forall k :: 0 <= k < |actions| ==> actions[k] != Failure(Finished(Mode.Success))
    ensures Steps(slot, actions).stop != Some(Finished(Mode.Success))
  {
    if actions != [] {
      StepsStop(slot, actions[..|actions| - 1]);
    }
  }

  /** A key the loop accepts is `s<n>` or `ss<n>` with a well-formed `n`. */
  lemma KeyActionIndex(key: string)
    requires KeyAction(key).Success?
    ensures |key| >= 2 && key[0] == 's' && KeyIndex(key) == Result.Success(KeyAction(key).value)
  {
  }

  /** `SceneToPng` files carry their slot's index. */
  lemma SlotOfIndexed(env: Env, section: Section)
    ensures Indexed(SlotOf(env, section))
  {
  }

  /** The files of two different slots have different names. */
  lemma SlotFilesNamedApart(env: Env, section: Section, f: OutFile, g: OutFile)
    requires SceneToPng(env, f.index, section) == Written(f)
    requires SceneToPng(env, g.index, section) == Written(g)
    requires f.index != g.index
    ensures f.name != g.name
  {
    WrittenSlot(env, f.index, section, f);
    WrittenSlot(env, g.index, section, g);
    var sf := env.dateStamp(FirstField(Lookup(section, SceneKey(f.index)).value)).value;
    var sg := env.dateStamp(FirstField(Lookup(section, SceneKey(g.index)).value)).value;
    if f.name == g.name {
      SlotNameInjective(f.index, sf, g.index, sg);
    }
  }

  /** No run writes two files for the same slot or two files with the same
      name, and each file written is its slot's own file. A missing registry
      file or a missing `scene` section writes nothing. */
  lemma IniRunWritesEachSlotOnce(env: Env, ini: Option<IniFile>)
    ensures ini.None? || "scene" !in ini.value ==> IniRun(env, ini) == (Finished(Error), [])
    ensures ini.Some? && "scene" in ini.value ==>
      var written := IniRun(env, ini).1;
      (forall k :: 0 <= k < |written| ==>
        SceneToPng(env, written[k].index, ini.value["scene"]) == Written(written[k])) &&
      (forall k, l :: 0 <= k < l < |written| ==>
        written[k].index != written[l].index && written[k].name != written[l].name)
  {
    if ini.Some? && "scene" in ini.value {
      var section := ini.value["scene"];
      var written := IniRun(env, ini).1;
      SlotOfIndexed(env, section);
      StepsConsistent(SlotOf(env, section), KeyActions(Keys(section)));
      forall k, l | 0 <= k < l < |written|
        ensures written[k].name != written[l].name
      {
        SlotFilesNamedApart(env, section, written[k], written[l]);
      }
    }
  }

  /** A run that succeeds met only keys `s<n>` and `ss<n>` with a well-formed
      `n`, and wrote the file of every slot they name that has one. */
  lemma IniRunSuccess(env: Env, ini: Option<IniFile>)
    requires IniRun(env, ini).0 == Finished(Mode.Success)
    ensures ini.Some? && "scene" in ini.value
    ensures var section := ini.value["scene"];
      forall k :: 0 <= k < |section| ==>
        var key := section[k].key;
        |key| >= 2 && key[0] == 's' && KeyIndex(key).Success? &&
        (SceneToPng(env, KeyIndex(key).value, section).Written? ==>
          SceneToPng(env, KeyIndex(key).value, section).file in IniRun(env, ini).1)
  {
    var section := ini.value["scene"];
    var keys := Keys(section);
    var actions := KeyActions(keys);
    var slot := SlotOf(env, section);
    SlotOfIndexed(env, section);
    StepsAccepted(slot, actions);
    StepsConsistent(slot, actions);
    var st := Steps(slot, actions);
    StepsStop(slot, actions);
    assert st == SceneLoop(env, section);
    forall k | 0 <= k < |section|
      ensures |keys[k]| >= 2 && keys[k][0] == 's' && KeyIndex(keys[k]).Success?
      ensures KeyIndex(keys[k]).value in st.seen
    {
      assert actions[k] == KeyAction(keys[k]);
      KeyActionIndex(keys[k]);
    }
  }

  /** The first key that does not start with `s` ends the run with Error
      when the keys before it went through without an exception. */
  lemma IniRunInvalidKey(env: Env, ini: Option<IniFile>, j: nat)
    requires ini.Some? && "scene" in ini.value
    requires var keys := Keys(ini.value["scene"]);
      j < |keys| && |keys[j]| > 0 && keys[j][0] != 's' &&
      Steps(SlotOf(env, ini.value["scene"]), KeyActions(keys)[..j]).stop.None?
    ensures IniRun(env, ini).0 == Finished(Error)
  {
    var section := ini.value["scene"];
    var actions := KeyActions(Keys(section));
    StepsSnoc(SlotOf(env, section), actions, j);
    StopSticky(SlotOf(env, section), actions, j + 1);
  }

  /** A key whose action throws (`key[0]` of an empty key, `key[1]` of the
      key `s`, or `Int32.Parse`), reached after keys that threw nothing,
      aborts the run with that exception. */
  lemma IniRunAbortsOnKey(env: Env, ini: Option<IniFile>, j: nat, e: Failure)
    requires ini.Some? && "scene" in ini.value
    requires var keys := Keys(ini.value["scene"]);
      j < |keys| && KeyAction(keys[j]) == Failure(Aborted(e)) &&
      Steps(SlotOf(env, ini.value["scene"]), KeyActions(keys)[..j]).stop.None?
    ensures IniRun(env, ini).0 == Aborted(e)
  {
    var section := ini.value["scene"];
    var actions := KeyActions(Keys(section));
    assert actions[j] == Failure(Aborted(e));
    StepsStopAt(SlotOf(env, section), actions, j, Aborted(e));
  }

  /** A key naming an index not seen before, whose slot throws (a bad
      base-64 screenshot or a bad date), aborts the run with that exception
      when the keys before it threw nothing. */
  lemma IniRunAbortsOnSlot(env: Env, ini: Option<IniFile>, j: nat, n: int, e: Failure)
    requires ini.Some? && "scene" in ini.value
    requires j < |Keys(ini.value["scene"])|
    requires var keys := Keys(ini.value["scene"]);
      var before := Steps(SlotOf(env, ini.value["scene"]), KeyActions(keys)[..j]);
      KeyAction(keys[j]) == Result.Success(n) && before.stop.None? && n !in before.seen
    requires SceneToPng(env, n, ini.value["scene"]) == SlotThrew(e)
    ensures IniRun(env, ini).0 == Aborted(e)
  {
    var section := ini.value["scene"];
    var keys := Keys(section);
    var actions := KeyActions(keys);
    var slot := SlotOf(env, section);
    assert actions[j] == KeyAction(keys[j]);
    assert slot(n) == SlotThrew(e);
    StepsThrowAt(slot, actions, j, n);
    var st := SceneLoop(env, section);
    assert st == Steps(slot, actions);
  }

  /** Reaching a slot index in the key loop of `ConvertIni`: an index not
      seen before is remembered and its slot converted. */
  method VisitSlot(env: Env, section: Section, index: int, seen: set<int>, written: seq<OutFile>)
    returns (seen': set<int>, written': seq<OutFile>, stop: Option<RunResult>)
    ensures IniState(seen', written', stop) ==
      Visit(SlotOf(env, section), IniState(seen, written, None), index)
  {
    seen', written', stop := seen, written, None;
    if index in seen {
      return;
    }
    seen' := seen + {index};
    var outcome := ConvertSceneToPng(env, index, section);
    assert outcome == SlotOf(env, section)(index);
    match outcome
    case SlotThrew(e) => stop := Some(Aborted(e));
    case Written(f) => written' := written + [f];
    case _ =>
  }

  /** The body of the key loop of `ConvertIni` for one key: reads the index,
      and converts the slot unless its index has been seen. `stop` says how
      the run ends when this key ends it. */
  method ConvertKey(env: Env, section: Section, key: string, seen: set<int>, written: seq<OutFile>)
    returns (seen': set<int>, written': seq<OutFile>, stop: Option<RunResult>)
    ensures IniState(seen', written', stop) ==
      Advance(SlotOf(env, section), IniState(seen, written, None), KeyAction(key))
  {
    seen', written' := seen, written;
    if |key| == 0 {
      return seen', written', Some(Aborted(IndexOutOfRange));
    }
    if key[0] != 's' {
      return seen', written', Some(Finished(Error));
    }
    if |key| < 2 {
      return seen', written', Some(Aborted(IndexOutOfRange));
    }
    var parsed := ParseInt32(key[if key[1] == 's' then 2 else 1..]);
    if parsed.Failure? {
      return seen', written', Some(Aborted(parsed.error));
    }
    assert KeyAction(key) == Result.Success(parsed.value);
    seen', written', stop := VisitSlot(env, section, parsed.value, seen, written);
  }

  /** `ConvertIni`: checks the file and its `scene` section, then converts
      the slot of every key once, remembering the indexes seen. */
  method ConvertIni(env: Env, ini: Option<IniFile>) returns (result: RunResult, written: seq<OutFile>)
    ensures (result, written) == IniRun(env, ini)
  {
    if ini.None? {
      return Finished(Error), [];
    }
    if "scene" !in ini.value {
      return Finished(Error), [];
    }
    var section := ini.value["scene"];
    ghost var slot := SlotOf(env, section);
    var keys := Keys(section);
    ghost var actions := KeyActions(keys);
    var saveSceneEntries: set<int> := {};
    written := [];
    for i := 0 to |keys|
      invariant Steps(slot, actions[..i]) == IniState(saveSceneEntries, written, None)
    {
      var stop;
      StepsSnoc(slot, actions, i);
      saveSceneEntries, written, stop := ConvertKey(env, section, keys[i], saveSceneEntries, written);
      if stop.Some? {
        StopSticky(slot, actions, i + 1);
        return stop.value, written;
      }
    }
    assert actions[..|keys|] == actions;
    result := Finished(Mode.Success);
  }
}
