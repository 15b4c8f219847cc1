/** Keeping the variable store in a root-directory file across reboots. */
module Persist {
  import opened Bytes
  import opened Options
  import SdCard
  import opened FatGeometry
  import opened FatDir
  import opened FatVolume
  import FatReader
  import FatWriter
  import opened VarStore
  import opened VarCodec

  const VAR_FILE_NAME: Name := [0x46, 0x45, 0x52, 0x52, 0x4F, 0x20, 0x20, 0x20, 0x56, 0x41, 0x52] // "FERRO   VAR"
  const MAX_BYTES := 8192

  datatype PersistError = TooLarge | Volume(error: SdCard.Error) | NotOurData
  datatype Outcome<+T> = Done(value: T) | Failed(error: PersistError)

  /** The volume holds `slots` in the variable file. */
  ghost predicate Holds(g: Fat32, d: SdCard.Disk, slots: seq<Variable>)
    requires g.Valid(|d|)
  {
    && AllEncodable(slots) && |slots| <= MAX_VARIABLES
    && PathBytes(g, d, [VAR_FILE_NAME]) == Some(Image(slots)) && |Image(slots)| <= MAX_BYTES
  }

  ghost predicate HasRoom(g: Fat32, d: SdCard.Disk, slots: seq<Variable>)
    requires g.Valid(|d|) && AllEncodable(slots) && |slots| <= MAX_VARIABLES
  {
    FatWriter.HasRoom(g, d, VAR_FILE_NAME, |Image(slots)|)
  }

  /** The variable file has more clusters than these variables need. */
  ghost predicate Shrinks(g: Fat32, d: SdCard.Disk, slots: seq<Variable>)
    requires g.Valid(|d|) && AllEncodable(slots) && |slots| <= MAX_VARIABLES
  {
    FatWriter.Shrinks(g, d, VAR_FILE_NAME, |Image(slots)|)
  }

  /** A storable name that reads as no file has no chain. */
  lemma NoFileNoChain(g: Fat32, d: SdCard.Disk, name: Name)
    requires g.Valid(|d|) && FatWriter.Storable(g, d, name) && PathBytes(g, d, [name]) == None
    ensures FatWriter.HeldBy(g, d, name) == 0
  {
    FatReader.RootPath(g, d, name);
  }

  class Persistence {
    const buf: array<byte>

    constructor ()
      ensures fresh(buf) && buf.Length == MAX_BYTES
    {
      buf := new byte[MAX_BYTES](_ => 0);
    }

    /** Writes the live variables to the variable file; TooLarge exactly when their image exceeds the buffer. */
    method Save(g: Fat32, card: SdCard.Card, store: Store, ghost lay: Layout)
      returns (r: Outcome<nat>, ghost lay': Layout)
      requires buf.Length == MAX_BYTES && store.Valid()
      requires Wf(g, card.disk, lay) && FatWriter.Storable(g, card.disk, VAR_FILE_NAME)
      modifies buf, card
      ensures store.Valid() && store.vars[..] == old(store.vars[..])
      ensures AllEncodable(store.vars[..]) && |store.vars[..]| <= MAX_VARIABLES
      ensures FatWriter.Safe(g, old(card.disk), card.disk, VAR_FILE_NAME)
      ensures r.Done? ==> Wf(g, card.disk, lay') && Holds(g, card.disk, store.vars[..])
      ensures r.Done? ==> r.value == |Image(store.vars[..])|
      ensures r.Done? ==>
                PathBytes(g, card.disk, [[0x46, 0x45, 0x52, 0x52, 0x4F, 0x20, 0x20, 0x20, 0x56, 0x41, 0x52]])
                == Some(Image(store.vars[..]))
      ensures r == Failed(TooLarge) <==> |Image(store.vars[..])| > 8192
      ensures r == Failed(TooLarge) ==> card.disk == old(card.disk)
      ensures r == Failed(Volume(SdCard.NoSpace)) ==> Wf(g, card.disk, lay') && AllKept(g, old(card.disk), card.disk)
      ensures r.Failed? ==> r.error in {TooLarge, Volume(SdCard.Sd), Volume(SdCard.NoSpace)}
      ensures r.Done? ==> HasRoom(g, old(card.disk), store.vars[..])
      ensures r == Failed(Volume(SdCard.NoSpace)) ==> !HasRoom(g, old(card.disk), store.vars[..])
      ensures !Shrinks(g, old(card.disk), store.vars[..]) ==> Wf(g, card.disk, lay')
      ensures PathBytes(g, old(card.disk), [VAR_FILE_NAME]) == None ==>
                PathBytes(g, card.disk, [VAR_FILE_NAME]) in {None, Some(Image(store.vars[..]))}
      ensures 0 < FatWriter.HeldBy(g, old(card.disk), VAR_FILE_NAME) && !Shrinks(g, old(card.disk), store.vars[..]) ==>
                || PathBytes(g, card.disk, [VAR_FILE_NAME]) == Some(Image(store.vars[..])) || r == Failed(TooLarge)
                || FatWriter.HalfWritten(g, old(card.disk), card.disk, VAR_FILE_NAME, Image(store.vars[..]))
      ensures card.faults == old(card.faults) + (if r == Failed(Volume(SdCard.Sd)) then 1 else 0)
    {
      hide Wf, FatWriter.Safe, FatWriter.HalfWritten, FatWriter.Storable, Image, AllEncodable, PathBytes, Sound,
        AllKept, FatWriter.HasRoom, FatWriter.HeldBy, FatWriter.Writable, FatWriter.DirNamed,
        FatWriter.ClustersFor, Mirrored;
      lay' := lay;
      SameIsSafe(g, card.disk, lay);
      FatWriter.StorableIsWritable(g, card.disk, lay, VAR_FILE_NAME);
      if PathBytes(g, card.disk, [VAR_FILE_NAME]) == None {
        NoFileNoChain(g, card.disk, VAR_FILE_NAME);
      }
      var written := Serialize(store, buf);
      if written.None? {
        return Failed(TooLarge), lay';
      }
      var data := buf[..written.value];
      var e;
      e, lay' := FatWriter.WriteFile(g, card, VAR_FILE_NAME, data, lay);
      if e.Err? {
        return Failed(Volume(e.error)), lay';
      }
      FatWriter.SafeKeepsSize(g, old(card.disk), card.disk, VAR_FILE_NAME);
      return Done(written.value), lay';
    }

    /**
     * Merges the variable file into the live store. Whatever the file holds, the store stays sound;
     * NotOurData exactly when the file was read and does not start with the mark.
     */
    method LoadVars(g: Fat32, card: SdCard.Card, store: Store, ghost lay: Layout) returns (r: Outcome<nat>)
      requires buf.Length == MAX_BYTES && store.Valid() && buf as object != store.vars as object
      requires Wf(g, card.disk, lay)
      modifies buf, store.vars, card`faults
      ensures store.Valid()
      ensures r.Failed? ==> store.vars[..] == old(store.vars[..])
      ensures r.Failed? ==> r.error in {Volume(SdCard.Sd), Volume(SdCard.NotFound), NotOurData}
      ensures r.Done? || r == Failed(NotOurData) ==>
                Find(DirOf(g, card.disk, g.rootCluster), VAR_FILE_NAME).Some?
      ensures r.Done? || r == Failed(NotOurData) ==>
                var content := StoredBytes(g, card.disk);
                var (vars, n) := Load(content[..Min(|content|, 8192)], old(store.vars[..]));
                && n == (if r.Done? then Some(r.value) else None)
                && store.vars[..] == vars
      ensures r == Failed(Volume(SdCard.NotFound)) ==>
                Find(DirOf(g, card.disk, g.rootCluster), VAR_FILE_NAME) == None
      ensures card.faults == old(card.faults) + (if r == Failed(Volume(SdCard.Sd)) then 1 else 0)
    {
      hide Wf, Load, FileBytes, Sound, DirOf, Find;
      WfValid(g, card.disk, lay);
      var n := FatReader.ReadFile(g, card, VAR_FILE_NAME, buf, lay);
      if n.Err? {
        return Failed(Volume(n.error));
      }
      var data := buf[..n.value];
      var loaded := Deserialize(store, data);
      if loaded.None? {
        LoadRefused(data, old(store.vars[..]));
        return Failed(NotOurData);
      }
      return Done(loaded.value);
    }
  }

  /** The bytes of the variable file's entry. */
  ghost function StoredBytes(g: Fat32, d: SdCard.Disk): seq<byte>
    requires g.Valid(|d|) && Find(DirOf(g, d, g.rootCluster), VAR_FILE_NAME).Some?
  {
    var e := Find(DirOf(g, d, g.rootCluster), VAR_FILE_NAME).value;
    FileBytes(g, d, FirstOf(e), SizeOf(e))
  }

  lemma SameIsSafe(g: Fat32, d: SdCard.Disk, lay: Layout)
    requires Wf(g, d, lay)
    ensures g.Valid(|d|) && FatWriter.Safe(g, d, d, VAR_FILE_NAME)
  {
    FatWriter.LeakIsSafeRefl(g, d, lay, VAR_FILE_NAME);
  }

  lemma LoadRefused(buf: seq<byte>, vars: seq<Variable>)
    requires Load(buf, vars).1 == None
    ensures Load(buf, vars).0 == vars
  {
  }

  /**
   * Durability: a volume a save left behind rebuilds the saved map, bindings and attributes included,
   * in any live store the two fit in together; an empty store becomes exactly the saved one.
   */
  lemma SavedMapReloads(g: Fat32, d: SdCard.Disk, saved: seq<Variable>, live: seq<Variable>)
    requires g.Valid(|d|) && Holds(g, d, saved) && Sound(saved) && Sound(live)
    requires |View(live).Keys + View(saved).Keys| <= MAX_VARIABLES
    ensures Find(DirOf(g, d, g.rootCluster), VAR_FILE_NAME).Some?
    ensures var content := StoredBytes(g, d);
            var (vars, n) := Load(content[..Min(|content|, MAX_BYTES)], live);
            n == Some(|View(saved)|) && Sound(vars) && View(vars) == View(live) + View(saved)
    ensures View(live) == map[] ==> View(live) + View(saved) == View(saved)
  {
    FatReader.RootPath(g, d, VAR_FILE_NAME);
    var content := StoredBytes(g, d);
    assert content == Image(saved);
    assert content[..Min(|content|, MAX_BYTES)] == content;
    LoadOfImage(saved, live);
  }

  /**
   * Save, power-cycle, load. While the card works the save goes through if and only if the image fits the
   * buffer and the volume has room; and then the rebooted store is the saved map.
   */
  method SaveThenReload(p: Persistence, g: Fat32, card: SdCard.Card, store: Store, ghost lay: Layout)
    returns (saved: Outcome<nat>, rebooted: Store, loaded: Outcome<nat>)
    requires p.buf.Length == MAX_BYTES && store.Valid() && p.buf as object != store.vars as object
    requires Wf(g, card.disk, lay) && FatWriter.Storable(g, card.disk, VAR_FILE_NAME)
    modifies p.buf, card
    ensures rebooted.Valid() && store.Valid() && store.vars[..] == old(store.vars[..])
    ensures saved.Done? ==>
              || (loaded == Failed(Volume(SdCard.Sd)) && card.faults == old(card.faults) + 1)
              || (loaded == Done(|View(store.vars[..])|) && View(rebooted.vars[..]) == View(store.vars[..]))
    ensures AllEncodable(store.vars[..]) && |store.vars[..]| <= MAX_VARIABLES
    ensures card.faults == old(card.faults) ==>
              (saved.Done? <==> |Image(store.vars[..])| <= MAX_BYTES && HasRoom(g, old(card.disk), store.vars[..]))
  {
    hide Wf, FatWriter.Safe, FatWriter.Storable, Load, FileBytes, DirOf, Find, View, Holds, HasRoom, Shrinks, Image;
    rebooted := new Store();
    loaded := Failed(NotOurData);
    ghost var lay';
    saved, lay' := p.Save(g, card, store, lay);
    if saved.Done? {
      WfValid(g, card.disk, lay');
      ghost var slots, blank := store.vars[..], rebooted.vars[..];
      SoundFits(slots, blank);
      SavedMapReloads(g, card.disk, slots, blank);
      loaded := p.LoadVars(g, card, rebooted, lay');
    }
  }

  lemma SoundFits(saved: seq<Variable>, live: seq<Variable>)
    requires Sound(saved) && View(live) == map[]
    ensures |View(live).Keys + View(saved).Keys| <= MAX_VARIABLES
  {
    ViewSize(saved);
    assert View(live).Keys + View(saved).Keys == View(saved).Keys;
  }
}
