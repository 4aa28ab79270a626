/** The preset list and the field sanitising of stored settings (src/storage.js).
    Reading and writing `localStorage` and JSON are not modelled: the loaders
    take the already parsed value, `None` standing for a missing item, text that
    is not JSON, or (for presets) a value that is not an array. */
module Storage {
  import opened Wrappers
  import opened TimeUtils

  /** A saved preset `{ id, name, durationSec, visualEnabled, soundEnabled, volume }`. */
  datatype Preset = Preset(id: string, name: string, durationSec: int,
                           visualEnabled: bool, soundEnabled: bool, volume: int)

  /** The last-used form settings `{ name, minutes, seconds, visualEnabled, soundEnabled, volume }`. */
  datatype Settings = Settings(name: string, minutes: int, seconds: int,
                               visualEnabled: bool, soundEnabled: bool, volume: int)

  /** A parsed JSON value as the loaders see it: an object, with each field they
      read either present or absent, or any other value (null, a number, a
      string, a boolean). */
  datatype Parsed =
    | NotAnObject
    | Record(id: Option<string>, name: Option<string>, durationSec: Option<int>,
             minutes: Option<int>, seconds: Option<int>,
             visualEnabled: Option<bool>, soundEnabled: Option<bool>, volume: Option<int>)

  /** The longest duration a preset may hold: 999 minutes 59 seconds. */
  const MaxDurationSec := 999 * 60 + 59
  const MaxMinutes := 999
  const MaxSeconds := 59
  const MaxVolume := 100
  const DefaultVolume := 50

  // ---------------------------------------------------------------------------
  // loadPresets

  predicate PresetInRange(p: Preset) {
    0 <= p.durationSec <= MaxDurationSec && 0 <= p.volume <= MaxVolume
  }

  /** One entry of `loadPresets`' map: absent fields take their defaults (a
      missing id the generated `freshId`), numbers are clamped. */
  function SanitizePreset(p: Parsed, freshId: string): (r: Preset)
    requires p.Record?
    ensures PresetInRange(r)
  {
    Preset(p.id.GetOr(freshId), p.name.GetOr(""),
           Clamp(p.durationSec.GetOr(0), 0, MaxDurationSec),
           p.visualEnabled.GetOr(false), p.soundEnabled.GetOr(false),
           Clamp(p.volume.GetOr(DefaultVolume), 0, MaxVolume))
  }

  /** How a loader reads an optional number field with default `d` and range
      `[0, hi]`: a missing field takes the default, a value in range is kept,
      and a value outside it moves to the nearer bound. */
  predicate LoadedNumber(v: Option<int>, d: int, hi: int, r: int) {
    && (v.None? ==> r == d)
    && (v.Some? && 0 <= v.value <= hi ==> r == v.value)
    && (v.Some? && v.value < 0 ==> r == 0)
    && (v.Some? && hi < v.value ==> r == hi)
  }

  /** Each field of a sanitised entry: the stored value when present, otherwise
      its default (`freshId`, the empty name, `false` for the flags, 0 seconds
      and volume 50), with the numbers moved into range. */
  lemma SanitizeFields(p: Parsed, freshId: string)
    requires p.Record?
    ensures var r := SanitizePreset(p, freshId);
      && (p.id.Some? ==> r.id == p.id.value) && (p.id.None? ==> r.id == freshId)
      && (p.name.Some? ==> r.name == p.name.value) && (p.name.None? ==> r.name == "")
      && (p.visualEnabled.Some? ==> r.visualEnabled == p.visualEnabled.value)
      && (p.visualEnabled.None? ==> !r.visualEnabled)
      && (p.soundEnabled.Some? ==> r.soundEnabled == p.soundEnabled.value)
      && (p.soundEnabled.None? ==> !r.soundEnabled)
      && LoadedNumber(p.durationSec, 0, MaxDurationSec, r.durationSec)
      && LoadedNumber(p.volume, DefaultVolume, MaxVolume, r.volume)
  {
  }

  /** A duration beyond 999:59 and a volume beyond 100 are cut to the maximum;
      negative ones become 0. */
  lemma SanitizeExamples(p: Parsed, r: Preset)
    requires (p == Record(Some("a"), Some("Tea"), Some(100000), None, None, Some(true), None, Some(250))
              && r == Preset("a", "Tea", 59999, true, false, 100))
          || (p == Record(None, None, Some(-5), None, None, None, Some(true), Some(-1))
              && r == Preset("x", "", 0, false, true, 0))
          || (p == Record(None, Some("Egg"), None, None, None, None, None, None)
              && r == Preset("x", "Egg", 0, false, false, 50))
    ensures SanitizePreset(p, "x") == r
  {
  }

  /** Objects concatenate: the filter keeps each object where it stands and
      drops each other value, one entry at a time. */
  lemma {:induction false} ObjectsConcat(a: seq<Parsed>, b: seq<Parsed>)
    ensures Objects(a + b) == Objects(a) + Objects(b)
  {
    if a != [] {
      assert (a + b)[0] == a[0];
      assert (a + b)[1..] == a[1..] + b;
      ObjectsConcat(a[1..], b);
    } else {
      assert a + b == b;
    }
  }

  /** A single entry is kept exactly when it is an object. */
  lemma ObjectsOne(p: Parsed)
    ensures Objects([p]) == if p.Record? then [p] else []
  {
  }

  /** Non-objects between entries are skipped and repeated entries are all kept,
      each under the identifier of its own position. */
  lemma LoadPresetsExample(q: Parsed)
    requires q == Record(None, Some("Tea"), Some(180), None, None, None, None, None)
    ensures LoadPresets(Some([q, NotAnObject, q]), (i: nat) => if i == 0 then "a" else "b")
            == [Preset("a", "Tea", 180, false, false, 50), Preset("b", "Tea", 180, false, false, 50)]
  {
    ObjectsConcat([q, NotAnObject], [q]);
    ObjectsConcat([q], [NotAnObject]);
    assert [q, NotAnObject, q] == [q, NotAnObject] + [q];
    assert [q, NotAnObject] == [q] + [NotAnObject];
  }

  /** `arr.filter(p => p && typeof p === 'object')`: the objects, in order. */
  function Objects(entries: seq<Parsed>): (r: seq<Parsed>)
    ensures |r| <= |entries|
    ensures forall i :: 0 <= i < |r| ==> r[i].Record? && r[i] in entries
    ensures forall p :: p in entries && p.Record? ==> p in r
  {
    if entries == [] then []
    else (if entries[0].Record? then [entries[0]] else []) + Objects(entries[1..])
  }

  /** `loadPresets()`; `newId(i)` is the identifier `crypto.randomUUID()` gives
      the `i`-th kept entry when it has none. Every loaded preset is in range,
      and nothing is loaded from a missing or unreadable item. */
  function LoadPresets(stored: Option<seq<Parsed>>, newId: nat -> string): (r: seq<Preset>)
    ensures stored.None? ==> r == []
    ensures stored.Some? ==> |r| == |Objects(stored.value)|
    ensures stored.Some? ==> forall i :: 0 <= i < |r| ==>
      r[i] == SanitizePreset(Objects(stored.value)[i], newId(i))
    ensures forall i :: 0 <= i < |r| ==> PresetInRange(r[i])
  {
    match stored
    case None => []
    case Some(entries) =>
      var objs := Objects(entries);
      var r := seq(|objs|, i requires 0 <= i < |objs| => SanitizePreset(objs[i], newId(i)));
      assert forall i :: 0 <= i < |r| ==> r[i] == SanitizePreset(objs[i], newId(i));
      r
  }

  /** The parsed form of a preset written by `savePresets`. */
  function Stored(p: Preset): Parsed {
    Record(Some(p.id), Some(p.name), Some(p.durationSec), None, None,
           Some(p.visualEnabled), Some(p.soundEnabled), Some(p.volume))
  }

  /** Round trip: presets in range that were saved load back unchanged. */
  lemma {:induction false} SaveLoadPresets(ps: seq<Preset>, newId: nat -> string)
    requires forall i :: 0 <= i < |ps| ==> PresetInRange(ps[i])
    ensures LoadPresets(Some(StoredAll(ps)), newId) == ps
  {
    ObjectsOfStored(ps);
    var r := LoadPresets(Some(StoredAll(ps)), newId);
    forall i | 0 <= i < |ps|
      ensures r[i] == ps[i]
    {
      assert r[i] == SanitizePreset(Stored(ps[i]), newId(i));
    }
  }

  function StoredAll(ps: seq<Preset>): (r: seq<Parsed>)
    ensures |r| == |ps| && forall i :: 0 <= i < |ps| ==> r[i] == Stored(ps[i])
  {
    if ps == [] then [] else [Stored(ps[0])] + StoredAll(ps[1..])
  }

  lemma {:induction false} ObjectsOfStored(ps: seq<Preset>)
    ensures Objects(StoredAll(ps)) == StoredAll(ps)
  {
    if ps != [] {
      ObjectsOfStored(ps[1..]);
      assert StoredAll(ps)[1..] == StoredAll(ps[1..]);
    }
  }

  /** Entries that are not objects are dropped. */
  lemma {:induction false} NonObjectsDropped(entries: seq<Parsed>, newId: nat -> string)
    requires forall i :: 0 <= i < |entries| ==> !entries[i].Record?
    ensures LoadPresets(Some(entries), newId) == []
  {
    if entries != [] {
      NonObjectsDropped(entries[1..], newId);
    }
  }

  // ---------------------------------------------------------------------------
  // loadLastSettings

  predicate SettingsInRange(s: Settings) {
    0 <= s.minutes <= MaxMinutes && 0 <= s.seconds <= MaxSeconds && 0 <= s.volume <= MaxVolume
  }

  /** `loadLastSettings()`: `None` unless an object was stored; otherwise the
      fields with their defaults, minutes, seconds and volume clamped. */
  function LoadLastSettings(stored: Option<Parsed>): (r: Option<Settings>)
    ensures r.Some? <==> stored.Some? && stored.value.Record?
    ensures r.Some? ==> SettingsInRange(r.value)
  {
    match stored
    case Some(Record(_, name, _, minutes, seconds, visual, sound, volume)) =>
      Some(Settings(name.GetOr(""),
                    Clamp(minutes.GetOr(0), 0, MaxMinutes),
                    Clamp(seconds.GetOr(0), 0, MaxSeconds),
                    visual.GetOr(false), sound.GetOr(false),
                    Clamp(volume.GetOr(DefaultVolume), 0, MaxVolume)))
    case _ => None
  }

  /** Each loaded setting: the stored value when present, otherwise its default
      (the empty name, `false` for the flags, 0 minutes and seconds, volume 50),
      with minutes, seconds and volume moved into range. */
  lemma LoadSettingsFields(stored: Option<Parsed>)
    requires stored.Some? && stored.value.Record?
    ensures var p, r := stored.value, LoadLastSettings(stored);
      && r.Some?
      && (p.name.Some? ==> r.value.name == p.name.value) && (p.name.None? ==> r.value.name == "")
      && (p.visualEnabled.Some? ==> r.value.visualEnabled == p.visualEnabled.value)
      && (p.visualEnabled.None? ==> !r.value.visualEnabled)
      && (p.soundEnabled.Some? ==> r.value.soundEnabled == p.soundEnabled.value)
      && (p.soundEnabled.None? ==> !r.value.soundEnabled)
      && LoadedNumber(p.minutes, 0, MaxMinutes, r.value.minutes)
      && LoadedNumber(p.seconds, 0, MaxSeconds, r.value.seconds)
      && LoadedNumber(p.volume, DefaultVolume, MaxVolume, r.value.volume)
  {
  }

  /** Round trip: settings in range that were saved load back unchanged. */
  lemma SaveLoadSettings(s: Settings)
    requires SettingsInRange(s)
    ensures LoadLastSettings(Some(Record(None, Some(s.name), None, Some(s.minutes), Some(s.seconds),
                                         Some(s.visualEnabled), Some(s.soundEnabled), Some(s.volume))))
            == Some(s)
  {
  }

  // ---------------------------------------------------------------------------
  // upsertPreset

  /** The first index whose entry's trimmed name is `name`, or -1 (the
      `findIndex` of `upsertPreset`). */
  function FirstNameMatch(s: seq<Preset>, name: string): (k: int)
    ensures -1 <= k < |s|
    ensures k >= 0 ==> Trim(s[k].name) == name
    ensures forall j :: 0 <= j < |s| && (k < 0 || j < k) ==> Trim(s[j].name) != name
  {
    if s == [] then -1
    else if Trim(s[0].name) == name then 0
    else
      var k := FirstNameMatch(s[1..], name);
      if k < 0 then -1 else k + 1
  }

  /** What `upsertPreset(presets, preset)` returns. */
  function Upserted(s: seq<Preset>, p: Preset): seq<Preset> {
    var written := p.(name := Trim(p.name));
    var k := FirstNameMatch(s, written.name);
    if k >= 0 then s[k := written] else [written] + s
  }

  /** `upsertPreset(presets, preset)` on an array: a copy is taken, the first
      entry whose trimmed name matches is overwritten in the copy (or the preset
      is put in front of it), and the input array is left as it was. */
  method UpsertPreset(presets: array<Preset>, preset: Preset) returns (next: array<Preset>)
    ensures fresh(next)
    ensures presets[..] == old(presets[..])
    ensures next[..] == Upserted(presets[..], preset)
  {
    var name := Trim(preset.name);
    var copy := new Preset[presets.Length];
    forall i | 0 <= i < presets.Length {
      copy[i] := presets[i];
    }
    assert copy[..] == presets[..];
    var idx := FindIndex(copy, name);
    if idx >= 0 {
      copy[idx] := preset.(name := name);
      assert copy[..] == presets[..][idx := preset.(name := name)];
      next := copy;
      return;
    }
    next := new Preset[presets.Length + 1];
    next[0] := preset.(name := name);
    forall i | 0 <= i < presets.Length {
      next[i + 1] := presets[i];
    }
    assert next[..] == [preset.(name := name)] + presets[..];
  }

  /** `next.findIndex(p => p.name.trim() === name)`. */
  method FindIndex(a: array<Preset>, name: string) returns (idx: int)
    ensures idx == FirstNameMatch(a[..], name)
  {
    var i := 0;
    while i < a.Length
      invariant 0 <= i <= a.Length
      invariant forall j :: 0 <= j < i ==> Trim(a[j].name) != name
    {
      if Trim(a[i].name) == name {
        FirstNameMatchUnique(a[..], name, i);
        return i;
      }
      i := i + 1;
    }
    FirstNameMatchUnique(a[..], name, -1);
    return -1;
  }

  /** `FirstNameMatch` is the only index (or -1) with its two properties. */
  lemma FirstNameMatchUnique(s: seq<Preset>, name: string, k: int)
    requires -1 <= k < |s|
    requires k >= 0 ==> Trim(s[k].name) == name
    requires forall j :: 0 <= j < |s| && (k < 0 || j < k) ==> Trim(s[j].name) != name
    ensures FirstNameMatch(s, name) == k
  {
  }

  /** With a matching entry, the result has the same length and differs only at
      the first match, which now holds the new preset (its id included) under
      the trimmed name. */
  lemma UpsertReplaces(s: seq<Preset>, p: Preset, k: int)
    requires 0 <= k < |s| && Trim(s[k].name) == Trim(p.name)
    requires forall j :: 0 <= j < k ==> Trim(s[j].name) != Trim(p.name)
    ensures var r := Upserted(s, p);
      |r| == |s| && r[k] == p.(name := Trim(p.name))
      && forall j :: 0 <= j < |s| && j != k ==> r[j] == s[j]
  {
    FirstNameMatchUnique(s, Trim(p.name), k);
  }

  /** Without a matching entry, the new preset (name trimmed) goes in front of
      the unchanged list. */
  lemma UpsertPrepends(s: seq<Preset>, p: Preset)
    requires forall j :: 0 <= j < |s| ==> Trim(s[j].name) != Trim(p.name)
    ensures Upserted(s, p) == [p.(name := Trim(p.name))] + s
  {
    FirstNameMatchUnique(s, Trim(p.name), -1);
  }

  /** The entry `upsertPreset` writes has a trimmed name, and is then found by
      that name. */
  lemma UpsertWritesTrimmed(s: seq<Preset>, p: Preset)
    ensures var r := Upserted(s, p);
      var k := FirstNameMatch(r, Trim(p.name));
      0 <= k && r[k] == p.(name := Trim(p.name)) && Trim(r[k].name) == r[k].name
  {
    var name := Trim(p.name);
    TrimIdempotent(p.name);
    var k := FirstNameMatch(s, name);
    if k >= 0 {
      FirstNameMatchUnique(Upserted(s, p), name, k);
    } else {
      FirstNameMatchUnique(Upserted(s, p), name, 0);
    }
  }

  /** Upserting the same preset twice is the same as once. */
  lemma UpsertIdempotent(s: seq<Preset>, p: Preset)
    ensures Upserted(Upserted(s, p), p) == Upserted(s, p)
  {
    var r := Upserted(s, p);
    UpsertWritesTrimmed(s, p);
    var k := FirstNameMatch(r, Trim(p.name));
    assert r[k := p.(name := Trim(p.name))] == r;
  }

  // ---------------------------------------------------------------------------
  // deletePreset

  /** `deletePreset(presets, id)`: the entries whose id differs, in order. */
  function DeletePreset(s: seq<Preset>, id: string): (r: seq<Preset>)
    ensures |r| <= |s|
    ensures forall i :: 0 <= i < |r| ==> r[i].id != id
  {
    if s == [] then []
    else (if s[0].id != id then [s[0]] else []) + DeletePreset(s[1..], id)
  }

  /** Exactly the entries with other ids survive. */
  lemma {:induction false} DeleteMembers(s: seq<Preset>, id: string)
    ensures forall p :: p in DeletePreset(s, id) <==> p in s && p.id != id
  {
    if s != [] {
      DeleteMembers(s[1..], id);
      assert s == [s[0]] + s[1..];
    }
  }

  /** Deleting distributes over concatenation, so the survivors keep their
      relative order. */
  lemma {:induction false} DeleteConcat(a: seq<Preset>, b: seq<Preset>, id: string)
    ensures DeletePreset(a + b, id) == DeletePreset(a, id) + DeletePreset(b, id)
  {
    if a == [] {
      assert a + b == b;
    } else {
      assert (a + b)[1..] == a[1..] + b;
      DeleteConcat(a[1..], b, id);
    }
  }

  /** A list without the id is returned unchanged. */
  lemma {:induction false} DeleteAbsent(s: seq<Preset>, id: string)
    requires forall i :: 0 <= i < |s| ==> s[i].id != id
    ensures DeletePreset(s, id) == s
  {
    if s != [] {
      DeleteAbsent(s[1..], id);
      assert s == [s[0]] + s[1..];
    }
  }

  /** Deleting twice is deleting once. */
  lemma DeleteIdempotent(s: seq<Preset>, id: string)
    ensures DeletePreset(DeletePreset(s, id), id) == DeletePreset(s, id)
  {
    DeleteAbsent(DeletePreset(s, id), id);
  }
}
