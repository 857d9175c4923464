/**
 * The plate-swap sequences of lib/plate-swap.ts: the built-in block that
 * ejects a finished plate and loads the next one, and the user's own
 * presets and active sequence kept in the browser's storage.
 */
module PlateSwap {
  import opened Wrappers
  import opened Text
  import opened GcodeParser
  import opened Processor

  /** The built-in sequence, line for line and space for space as the printer vendor formats it. */
  const DefaultPlateSwapSequence: string :=
    "G0 X-10 F5000;\n"
    + " G0 Z175;\n"
    + " G0 Y-5 F2000;\n"
    + "  G0 Y186.5 F2000;\n"
    + "  G0 Y182 F10000;\n"
    + "  G0 Z186 ;\n"
    + "  G0 X180 F5000;\n"
    + " G0 Y120 F500;\n"
    + " G0 Y-4 Z175 X-15 F3000;\n"
    + " G0 Y145;\n"
    + "  G0 Y115 F1000;\n"
    + " G0 Y25 F500;\n"
    + " G0 Y85 F1000;\n"
    + " G0 Y180 F1000;\n"
    + " G0 X-10 F5000;\n"
    + " G4 P500; wait\n"
    + " G0 Y186.5 F200;\n"
    + " G4 P500; wait\n"
    + " G0 Y3 F3000;\n"
    + " G0 Y-5 F200;\n"
    + "G4 P500; wait\n"
    + " G0 Y10 F1000;\n"
    + " G0 Z100 Y186 F2000;\n"
    + " G0 Y150;\n"
    + " G4 P1000; wait;"

  /** A named plate-swap sequence. */
  datatype Preset = Preset(name: string, description: string, sequence: string)

  /** The built-in presets: the default sequence only. */
  const Presets: seq<Preset> := [Preset("Default (Chitu)", "Standard PlateCycler C1M sequence", DefaultPlateSwapSequence)]

  /** The storage keys of the custom presets and of the active sequence. */
  const CustomPresetsKey: string := "platecycler-custom-presets"
  const ActiveSequenceKey: string := "platecycler-active-sequence"

  /** Saving outside a browser fails: there is no storage to write to. */
  datatype StoreError = StorageUnavailable

  // ---------------------------------------------------------------------
  // The default sequence

  /** The default sequence starts with the fingerprint, ends in a non-space and is longer than a block must be. */
  lemma DefaultEnds()
    ensures DefaultPlateSwapSequence[..|Fingerprint|] == Fingerprint
    ensures DefaultPlateSwapSequence[|DefaultPlateSwapSequence| - 1] == ';'
    ensures |DefaultPlateSwapSequence| > MinBlockLength
  {
  }

  /** A text that starts with the fingerprint and ends in a non-space has nothing to trim and holds the fingerprint. */
  lemma FingerprintedIsTrimmed(s: string)
    requires |s| >= |Fingerprint| && s[..|Fingerprint|] == Fingerprint
    requires !IsWs(s[|s| - 1])
    ensures Trim(s) == s
    ensures Contains(s, Fingerprint)
  {
    TrimEndIs(s, |s|);
    assert s[..|s|] == s;
    assert s[0] == s[..|Fingerprint|][0];
    TrimStartIs(s, 0);
    assert forall j :: 0 <= j < |Fingerprint| ==> s[j] == s[..|Fingerprint|][j];
    ContainsAt(s, Fingerprint, 0);
  }

  /** The default sequence has nothing to trim, is longer than a block must be and holds the fingerprint. */
  lemma DefaultIsBlock()
    ensures Trim(DefaultPlateSwapSequence) == DefaultPlateSwapSequence
    ensures |DefaultPlateSwapSequence| > MinBlockLength
    ensures Contains(DefaultPlateSwapSequence, Fingerprint)
  {
    DefaultEnds();
    FingerprintedIsTrimmed(DefaultPlateSwapSequence);
  }

  /**
   * Injecting the default sequence into any job that has the marker yields a
   * text the processor recognises as holding a block, and injecting once
   * more changes nothing.
   */
  lemma DefaultInjectionRecognised(gcode: string, again: string)
    requires Contains(gcode, Marker)
    ensures Injected(gcode, DefaultPlateSwapSequence).Ok?
    ensures HasSwapSequence(Injected(gcode, DefaultPlateSwapSequence).value)
    ensures Injected(Injected(gcode, DefaultPlateSwapSequence).value, again) == Injected(gcode, DefaultPlateSwapSequence)
  {
    DefaultIsBlock();
    InjectedBlockRecognised(gcode, DefaultPlateSwapSequence);
    TrimEndIs(DefaultPlateSwapSequence, |DefaultPlateSwapSequence|);
    assert DefaultPlateSwapSequence[..|DefaultPlateSwapSequence|] == DefaultPlateSwapSequence;
    InjectionIdempotent(gcode, DefaultPlateSwapSequence, again);
  }

  // ---------------------------------------------------------------------
  // Preset lists

  /** `findIndex` by name: the first preset of that name, if any. */
  function FindIndex(presets: seq<Preset>, name: string): (r: Option<nat>)
    ensures r.Some? ==> r.value < |presets| && presets[r.value].name == name
    ensures r.Some? ==> forall j :: 0 <= j < r.value ==> presets[j].name != name
    ensures r.None? ==> forall j :: 0 <= j < |presets| ==> presets[j].name != name
  {
    if presets == [] then None
    else if presets[0].name == name then Some(0)
    else match FindIndex(presets[1..], name)
      case None => None
      case Some(i) => Some(i + 1)
  }

  /** The list `saveCustomPreset` writes: the first preset of the same name replaced in place, or the new one appended. */
  function Upserted(presets: seq<Preset>, preset: Preset): (r: seq<Preset>)
    ensures preset in r
    ensures |r| == |presets| || |r| == |presets| + 1
    ensures forall q :: q in r ==> q == preset || q in presets
  {
    match FindIndex(presets, preset.name)
    case Some(i) =>
      assert presets[i := preset][i] == preset;
      presets[i := preset]
    case None => presets + [preset]
  }

  /** A name already present: the list keeps its length, its first preset of that name becomes the new one, the rest stay. */
  lemma UpsertReplacesFirst(presets: seq<Preset>, preset: Preset, i: nat)
    requires i < |presets| && presets[i].name == preset.name
    requires forall j :: 0 <= j < i ==> presets[j].name != preset.name
    ensures |Upserted(presets, preset)| == |presets|
    ensures Upserted(presets, preset)[i] == preset
    ensures forall j :: 0 <= j < |presets| && j != i ==> Upserted(presets, preset)[j] == presets[j]
  {
  }

  /** A new name: the preset is appended after all the others. */
  lemma UpsertAppendsNew(presets: seq<Preset>, preset: Preset)
    requires forall j :: 0 <= j < |presets| ==> presets[j].name != preset.name
    ensures Upserted(presets, preset) == presets + [preset]
  {
  }

  /** After saving, looking the name up finds the saved preset. */
  lemma UpsertedFinds(presets: seq<Preset>, preset: Preset)
    ensures FindIndex(Upserted(presets, preset), preset.name).Some?
    ensures Upserted(presets, preset)[FindIndex(Upserted(presets, preset), preset.name).value] == preset
  {
    var r := Upserted(presets, preset);
    match FindIndex(presets, preset.name)
    case Some(i) =>
      UpsertReplacesFirst(presets, preset, i);
      assert forall j :: 0 <= j < i ==> r[j].name != preset.name;
      assert r[i].name == preset.name;
      var k := FindIndex(r, preset.name).value;
      assert k == i by {
        if k < i {
        } else if i < k {
        }
      }
    case None =>
      assert r[|presets|] == preset;
      var k := FindIndex(r, preset.name).value;
      assert k == |presets|;
  }

  /** Saving the same preset twice is saving it once. */
  lemma UpsertIdempotent(presets: seq<Preset>, preset: Preset)
    ensures Upserted(Upserted(presets, preset), preset) == Upserted(presets, preset)
  {
    var r := Upserted(presets, preset);
    UpsertedFinds(presets, preset);
    var k := FindIndex(r, preset.name).value;
    assert r[k := preset] == r;
  }

  /** `filter((p) => p.name !== name)`: every preset of another name, in the original order. */
  function Without(presets: seq<Preset>, name: string): (r: seq<Preset>)
    ensures |r| <= |presets|
    ensures forall q :: q in r <==> q in presets && q.name != name
  {
    if presets == [] then []
    else (if presets[0].name != name then [presets[0]] else []) + Without(presets[1..], name)
  }

  /** Deleting from a joined list deletes from each part, so the kept presets keep their order. */
  lemma {:induction false} WithoutAppend(a: seq<Preset>, b: seq<Preset>, name: string)
    ensures Without(a + b, name) == Without(a, name) + Without(b, name)
  {
    if a == [] {
      assert a + b == b;
    } else {
      assert (a + b)[1..] == a[1..] + b;
      WithoutAppend(a[1..], b, name);
    }
  }

  /** A list without the name loses nothing. */
  lemma {:induction false} WithoutAbsent(presets: seq<Preset>, name: string)
    requires forall j :: 0 <= j < |presets| ==> presets[j].name != name
    ensures Without(presets, name) == presets
  {
    if presets != [] {
      WithoutAbsent(presets[1..], name);
    }
  }

  /** Deleting twice is deleting once. */
  lemma WithoutIdempotent(presets: seq<Preset>, name: string)
    ensures Without(Without(presets, name), name) == Without(presets, name)
  {
    var r := Without(presets, name);
    assert forall j :: 0 <= j < |r| ==> r[j] in r;
    WithoutAbsent(r, name);
  }

  /** Deleting a name just saved leaves what deleting it alone would. */
  lemma WithoutUpserted(presets: seq<Preset>, preset: Preset)
    ensures Without(Upserted(presets, preset), preset.name) == Without(presets, preset.name)
  {
    match FindIndex(presets, preset.name)
    case Some(i) =>
      SplitAt(presets, i);
      SplitAt(presets[i := preset], i);
      assert presets[i := preset][..i] == presets[..i];
      assert presets[i := preset][i + 1..] == presets[i + 1..];
      WithoutAppend(presets[..i] + [presets[i]], presets[i + 1..], preset.name);
      WithoutAppend(presets[..i], [presets[i]], preset.name);
      WithoutAppend(presets[..i] + [preset], presets[i + 1..], preset.name);
      WithoutAppend(presets[..i], [preset], preset.name);
      assert Without([presets[i]], preset.name) == [] == Without([preset], preset.name);
    case None =>
      WithoutAppend(presets, [preset], preset.name);
      assert Without([preset], preset.name) == [];
  }

  /** A list is its part before `i`, its element at `i` and its part after. */
  lemma SplitAt<T>(xs: seq<T>, i: nat)
    requires i < |xs|
    ensures xs == xs[..i] + [xs[i]] + xs[i + 1..]
  {
  }

  // ---------------------------------------------------------------------
  // The store

  /**
   * The browser storage as far as these functions use it: the preset list
   * stored under `CustomPresetsKey` and the sequence stored under
   * `ActiveSequenceKey`, each `None` while nothing is stored; `inBrowser`
   * is false during server-side rendering, when there is no storage.
   */
  class PresetStore {
    const inBrowser: bool
    var customPresets: Option<seq<Preset>>
    var activeSequence: Option<string>

    constructor(inBrowser: bool, customPresets: Option<seq<Preset>>, activeSequence: Option<string>)
      ensures this.inBrowser == inBrowser
      ensures this.customPresets == customPresets && this.activeSequence == activeSequence
    {
      this.inBrowser := inBrowser;
      this.customPresets := customPresets;
      this.activeSequence := activeSequence;
    }

    /** `loadCustomPresets`: the stored list, or none at all outside a browser or while nothing is stored. */
    function LoadCustomPresets(): (r: seq<Preset>)
      reads this
      ensures !inBrowser || customPresets.None? ==> r == []
      ensures inBrowser && customPresets.Some? ==> r == customPresets.value
    {
      if !inBrowser then []
      else match customPresets
        case None => []
        case Some(presets) => presets
    }

    /**
     * `saveCustomPreset`: replace the first preset of the same name in the
     * loaded list, or append the new one, and store the list; outside a
     * browser the write fails and nothing changes.
     */
    method SaveCustomPreset(preset: Preset) returns (r: Result<(), StoreError>)
      modifies this
      ensures r.Ok? <==> inBrowser
      ensures r.Ok? ==> customPresets == Some(Upserted(old(LoadCustomPresets()), preset))
      ensures r.Err? ==> customPresets == old(customPresets)
      ensures activeSequence == old(activeSequence)
    {
      var presets := LoadCustomPresets();
      var existingIndex := FindIndex(presets, preset.name);
      if existingIndex.Some? {
        presets := presets[existingIndex.value := preset];
      } else {
        presets := presets + [preset];
      }
      if !inBrowser {
        return Err(StorageUnavailable);
      }
      customPresets := Some(presets);
      r := Ok(());
    }

    /** `deleteCustomPreset`: store the loaded list without the presets of that name; outside a browser the write fails. */
    method DeleteCustomPreset(name: string) returns (r: Result<(), StoreError>)
      modifies this
      ensures r.Ok? <==> inBrowser
      ensures r.Ok? ==> customPresets == Some(Without(old(LoadCustomPresets()), name))
      ensures r.Err? ==> customPresets == old(customPresets)
      ensures activeSequence == old(activeSequence)
    {
      var presets := Without(LoadCustomPresets(), name);
      if !inBrowser {
        return Err(StorageUnavailable);
      }
      customPresets := Some(presets);
      r := Ok(());
    }

    /** `loadActiveSequence`: the stored sequence, or the default outside a browser or when nothing or an empty text is stored. */
    function LoadActiveSequence(): (r: string)
      reads this
      ensures r != []
      ensures !inBrowser || activeSequence.None? || activeSequence == Some("") ==> r == DefaultPlateSwapSequence
      ensures inBrowser && activeSequence.Some? && activeSequence.value != "" ==> r == activeSequence.value
    {
      if !inBrowser then DefaultPlateSwapSequence
      else match activeSequence
        case Some(sequence) => if sequence != "" then sequence else DefaultPlateSwapSequence
        case None => DefaultPlateSwapSequence
    }

    /** `saveActiveSequence`: what is stored is loaded back, an empty text as the default; outside a browser the write fails. */
    method SaveActiveSequence(sequence: string) returns (r: Result<(), StoreError>)
      modifies this
      ensures r.Ok? <==> inBrowser
      ensures r.Ok? ==> activeSequence == Some(sequence)
      ensures r.Ok? ==> LoadActiveSequence() == if sequence == "" then DefaultPlateSwapSequence else sequence
      ensures r.Err? ==> activeSequence == old(activeSequence)
      ensures customPresets == old(customPresets)
    {
      if !inBrowser {
        return Err(StorageUnavailable);
      }
      activeSequence := Some(sequence);
      r := Ok(());
    }
  }
}
