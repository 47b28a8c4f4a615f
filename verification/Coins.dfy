/**
The unspent-output cache stack of src/coins.cpp: write-back caches with DIRTY and
FRESH flags over a cache over ... over a coin database.

The reference is one flat map from outpoint to unspent coin.  `CoinsViewCache.View`
gives that map for a cache at any depth; every operation is specified by what it does
to the map, never by what it does to the flags.
*/
module Coins {
  import opened Basics

  datatype OutPoint = OutPoint(hash: nat, n: nat)
  datatype TxOut = TxOut(nValue: int, scriptPubKey: seq<Byte>)

  const OP_RETURN: Byte := 0x6a
  const MAX_SCRIPT_SIZE := 10000
  const INLINE_SCRIPT_SIZE := 28  // a script this short lives inside its owner

  datatype Coin = Coin(out: TxOut, fCoinBase: bool, nHeight: nat) {
    predicate IsSpent() {
      out.nValue == -1
    }

    predicate IsUnspendable() {
      || (|out.scriptPubKey| > 0 && out.scriptPubKey[0] == OP_RETURN)
      || |out.scriptPubKey| > MAX_SCRIPT_SIZE
    }

    /** Heap bytes of a script buffer that is exactly as long as the script. */
    function DynamicMemoryUsage(): nat {
      var size := |out.scriptPubKey|;
      if size <= INLINE_SCRIPT_SIZE then 0 else (size + 31) / 16 * 16
    }
  }

  /** What `Coin::Clear` and the default constructor leave. */
  const NULL_COIN := Coin(TxOut(-1, []), false, 0)

  datatype CacheEntry = CacheEntry(coin: Coin, isDirty: bool, isFresh: bool)

  type CoinsMap = map<OutPoint, CacheEntry>
  type CoinSet = map<OutPoint, Coin>

  /** The coins seen through a layer of cache entries over the coins `below`. */
  ghost function Overlay(entries: CoinsMap, below: CoinSet): CoinSet {
    map o | o in entries.Keys + below.Keys && (o in entries ==> !entries[o].coin.IsSpent())
      :: if o in entries then entries[o].coin else below[o]
  }

  ghost predicate AllUnspent(coins: CoinSet) {
    forall o <- coins :: !coins[o].IsSpent()
  }

  /** The entry says the same about `o` as the coins below. */
  ghost predicate Agrees(entry: CacheEntry, o: OutPoint, below: CoinSet) {
    if entry.coin.IsSpent() then o !in below else o in below && below[o] == entry.coin
  }

  /** What the flags promise: not DIRTY means in agreement with below, FRESH means
      that nothing unspent lies below. */
  ghost predicate EntryOk(entry: CacheEntry, o: OutPoint, below: CoinSet) {
    && (!entry.isDirty ==> Agrees(entry, o, below))
    && (entry.isFresh ==> o !in below)
  }

  ghost predicate LayerOk(entries: CoinsMap, below: CoinSet) {
    forall o <- entries :: EntryOk(entries[o], o, below)
  }

  /** Sum of the script memory of all entries. */
  ghost function TotalUsage(entries: CoinsMap): nat {
    if entries == map[] then 0 else
      var o :| o in entries;
      entries[o].coin.DynamicMemoryUsage() + TotalUsage(entries - {o})
  }

  lemma {:induction false} TotalUsageWithout(entries: CoinsMap, o: OutPoint)
    requires o in entries
    ensures TotalUsage(entries) == entries[o].coin.DynamicMemoryUsage() + TotalUsage(entries - {o})
    decreases |entries|
  {
    var p :| p in entries && TotalUsage(entries) == entries[p].coin.DynamicMemoryUsage() + TotalUsage(entries - {p});
    if p != o {
      assert entries - {p} - {o} == entries - {o} - {p};
      TotalUsageWithout(entries - {p}, o);
      TotalUsageWithout(entries - {o}, p);
    }
  }

  lemma TotalUsageUpdate(entries: CoinsMap, o: OutPoint, entry: CacheEntry)
    ensures TotalUsage(entries[o := entry]) == entry.coin.DynamicMemoryUsage() + TotalUsage(entries - {o})
  {
    var updated := entries[o := entry];
    TotalUsageWithout(updated, o);
    assert updated - {o} == entries - {o};
  }

  lemma RemoveAbsent(coins: CoinSet, o: OutPoint)
    requires o !in coins
    ensures coins - {o} == coins
  {
  }

  // ---------------------------------------------------------------- writing one entry

  /** The branches of one iteration of `CCoinsViewCache::BatchWrite`: what the parent's
      entries become when the child's entry for `o` is written into them. */
  function WriteEntry(parent: CoinsMap, o: OutPoint, child: CacheEntry): CoinsMap {
    if !child.isDirty then parent
    else if o !in parent then
      if child.isFresh && child.coin.IsSpent() then parent
      else parent[o := CacheEntry(child.coin, true, child.isFresh)]
    else if parent[o].isFresh && child.coin.IsSpent() then parent - {o}
    else parent[o := CacheEntry(child.coin, true, parent[o].isFresh)]
  }

  /** Setting or removing one outpoint of the flat map. */
  ghost function Assign(coins: CoinSet, o: OutPoint, coin: Coin): CoinSet {
    if coin.IsSpent() then coins - {o} else coins[o := coin]
  }

  /** Replacing an entry is an assignment to the view. */
  lemma OverlayUpdate(entries: CoinsMap, below: CoinSet, o: OutPoint, entry: CacheEntry)
    requires LayerOk(entries, below) && EntryOk(entry, o, below)
    ensures LayerOk(entries[o := entry], below)
    ensures Overlay(entries[o := entry], below) == Assign(Overlay(entries, below), o, entry.coin)
  {
    var updated := entries[o := entry];
    forall p <- updated ensures EntryOk(updated[p], p, below) {
      assert p != o ==> EntryOk(entries[p], p, below);
    }
  }

  /** Erasing an entry lets the coin below show through. */
  lemma OverlayErase(entries: CoinsMap, below: CoinSet, o: OutPoint)
    requires LayerOk(entries, below) && AllUnspent(below)
    ensures LayerOk(entries - {o}, below)
    ensures Overlay(entries - {o}, below)
            == Assign(Overlay(entries, below), o, if o in below then below[o] else NULL_COIN)
  {
    var rest := entries - {o};
    forall p <- rest ensures EntryOk(rest[p], p, below) {
      assert EntryOk(entries[p], p, below);
    }
  }

  /** Writing one entry keeps the flag promises of the parent, has the effect of one
      assignment on the parent's view, and cannot meet the misapplied-FRESH throw. */
  lemma WriteEntryRefines(parent: CoinsMap, below: CoinSet, o: OutPoint, child: CacheEntry)
    requires LayerOk(parent, below) && AllUnspent(below)
    requires EntryOk(child, o, Overlay(parent, below))
    ensures LayerOk(WriteEntry(parent, o, child), below)
    ensures Overlay(WriteEntry(parent, o, child), below) == Assign(Overlay(parent, below), o, child.coin)
    ensures child.isDirty && child.isFresh && o in parent ==> parent[o].coin.IsSpent()
  {
    assert o in parent ==> EntryOk(parent[o], o, below);
    assert (o in Overlay(parent, below)) == (if o in parent then !parent[o].coin.IsSpent() else o in below);
    if !child.isDirty || (o !in parent && child.isFresh && child.coin.IsSpent()) {
      assert Assign(Overlay(parent, below), o, child.coin) == Overlay(parent, below);
    } else if o !in parent {
      OverlayUpdate(parent, below, o, CacheEntry(child.coin, true, child.isFresh));
    } else if parent[o].isFresh && child.coin.IsSpent() {
      OverlayErase(parent, below, o);
    } else {
      OverlayUpdate(parent, below, o, CacheEntry(child.coin, true, parent[o].isFresh));
    }
  }

  /** Entries for other outpoints do not notice the assignment. */
  lemma RestStaysOk(entries: CoinsMap, view: CoinSet, o: OutPoint, coin: Coin)
    requires o in entries && LayerOk(entries, view)
    ensures LayerOk(entries - {o}, Assign(view, o, coin))
    ensures Overlay(entries - {o}, Assign(view, o, entries[o].coin)) == Overlay(entries, view)
  {
    var rest := entries - {o};
    forall p <- rest ensures EntryOk(rest[p], p, Assign(view, o, coin)) {
      assert EntryOk(entries[p], p, view);
    }
  }

  /** One iteration of a write into a cache: the entries still to write, seen over the
      updated parent, show what they showed before. */
  lemma WriteStep(todo: CoinsMap, parent: CoinsMap, below: CoinSet, o: OutPoint)
    requires LayerOk(parent, below) && AllUnspent(below) && o in todo
    requires LayerOk(todo, Overlay(parent, below))
    ensures var written := WriteEntry(parent, o, todo[o]);
            && LayerOk(written, below)
            && LayerOk(todo - {o}, Overlay(written, below))
            && Overlay(todo - {o}, Overlay(written, below)) == Overlay(todo, Overlay(parent, below))
    ensures todo[o].isDirty && todo[o].isFresh && o in parent ==> parent[o].coin.IsSpent()
  {
    assert EntryOk(todo[o], o, Overlay(parent, below));
    WriteEntryRefines(parent, below, o, todo[o]);
    RestStaysOk(todo, Overlay(parent, below), o, todo[o].coin);
  }

  /** One iteration of a write into the database. */
  lemma StoreStep(todo: CoinsMap, coins: CoinSet, o: OutPoint)
    requires AllUnspent(coins) && o in todo && LayerOk(todo, coins)
    ensures var stored := if todo[o].isDirty then Assign(coins, o, todo[o].coin) else coins;
            && AllUnspent(stored)
            && LayerOk(todo - {o}, stored)
            && Overlay(todo - {o}, stored) == Overlay(todo, coins)
  {
    assert EntryOk(todo[o], o, coins);
    RestStaysOk(todo, coins, o, todo[o].coin);
    if !todo[o].isDirty {
      assert Assign(coins, o, todo[o].coin) == coins;
    }
  }

  /** Caching a coin that shows through from below changes nothing. */
  lemma FetchStep(entries: CoinsMap, below: CoinSet, o: OutPoint)
    requires LayerOk(entries, below) && AllUnspent(below) && o !in entries && o in below
    ensures var fetched := entries[o := CacheEntry(below[o], false, false)];
            && LayerOk(fetched, below)
            && Overlay(fetched, below) == Overlay(entries, below)
            && TotalUsage(fetched) == TotalUsage(entries) + below[o].DynamicMemoryUsage()
  {
    PutStep(entries, below, o, CacheEntry(below[o], false, false));
  }

  /** What `SpendCoin` does to a cached entry. */
  function SpendEntry(entries: CoinsMap, o: OutPoint): CoinsMap
    requires o in entries
  {
    if entries[o].isFresh then entries - {o} else entries[o := CacheEntry(NULL_COIN, true, false)]
  }

  lemma SpendStep(entries: CoinsMap, below: CoinSet, o: OutPoint)
    requires LayerOk(entries, below) && AllUnspent(below) && o in entries
    ensures LayerOk(SpendEntry(entries, o), below)
    ensures Overlay(SpendEntry(entries, o), below) == Overlay(entries, below) - {o}
    ensures TotalUsage(SpendEntry(entries, o)) == TotalUsage(entries) - entries[o].coin.DynamicMemoryUsage()
    ensures o in Overlay(entries, below) ==> Overlay(entries, below)[o] == entries[o].coin
  {
    if entries[o].isFresh {
      EraseStep(entries, below, o);
    } else {
      PutStep(entries, below, o, CacheEntry(NULL_COIN, true, false));
    }
  }

  function UsageAt(entries: CoinsMap, o: OutPoint): nat {
    if o in entries then entries[o].coin.DynamicMemoryUsage() else 0
  }

  lemma UsageAfterPut(entries: CoinsMap, o: OutPoint, entry: CacheEntry)
    ensures TotalUsage(entries[o := entry])
            == TotalUsage(entries) - UsageAt(entries, o) + entry.coin.DynamicMemoryUsage()
  {
    TotalUsageUpdate(entries, o, entry);
    if o in entries {
      TotalUsageWithout(entries, o);
    } else {
      assert entries - {o} == entries;
    }
  }

  lemma UsageAfterWrite(parent: CoinsMap, o: OutPoint, child: CacheEntry)
    ensures var written := WriteEntry(parent, o, child);
            TotalUsage(written) == TotalUsage(parent) - UsageAt(parent, o) + UsageAt(written, o)
  {
    var written := WriteEntry(parent, o, child);
    if o in written && written != parent {
      UsageAfterPut(parent, o, written[o]);
    } else if o in parent && o !in written {
      TotalUsageWithout(parent, o);
    }
  }

  /** Putting a modified entry in place. */
  lemma PutStep(entries: CoinsMap, below: CoinSet, o: OutPoint, entry: CacheEntry)
    requires LayerOk(entries, below) && AllUnspent(below) && EntryOk(entry, o, below)
    ensures LayerOk(entries[o := entry], below)
    ensures Overlay(entries[o := entry], below) == Assign(Overlay(entries, below), o, entry.coin)
    ensures TotalUsage(entries[o := entry])
            == TotalUsage(entries) - UsageAt(entries, o) + entry.coin.DynamicMemoryUsage()
  {
    OverlayUpdate(entries, below, o, entry);
    UsageAfterPut(entries, o, entry);
  }

  /** The entry `AddCoin` puts in place: FRESH when the one it replaces is not DIRTY. */
  function AddedEntry(entries: CoinsMap, o: OutPoint, coin: Coin, possibleOverwrite: bool): CacheEntry {
    var was := if o in entries then entries[o] else CacheEntry(NULL_COIN, false, false);
    CacheEntry(coin, true, was.isFresh || (!possibleOverwrite && !was.isDirty))
  }

  /** `AddCoin` marks as FRESH an entry for an outpoint with an unspent coin below. */
  ghost predicate Sneaks(entries: CoinsMap, below: CoinSet, o: OutPoint, coin: Coin, possibleOverwrite: bool) {
    !coin.IsUnspendable() && !possibleOverwrite && o !in entries && o in below
  }

  ghost predicate Holds(entries: CoinsMap, o: OutPoint) {
    o in entries && !entries[o].coin.IsSpent()
  }

  /** Whatever the flags say, an added coin is seen; the flags stay right unless it sneaks in. */
  lemma AddStep(entries: CoinsMap, below: CoinSet, o: OutPoint, coin: Coin, possibleOverwrite: bool)
    requires AllUnspent(below) && !coin.IsSpent() && !coin.IsUnspendable() && (possibleOverwrite || !Holds(entries, o))
    ensures var added := entries[o := AddedEntry(entries, o, coin, possibleOverwrite)];
            && Overlay(added, below) == Overlay(entries, below)[o := coin]
            && TotalUsage(added) == TotalUsage(entries) - UsageAt(entries, o) + coin.DynamicMemoryUsage()
            && (LayerOk(entries, below) ==> (LayerOk(added, below) <==> !Sneaks(entries, below, o, coin, possibleOverwrite)))
  {
    var entry := AddedEntry(entries, o, coin, possibleOverwrite);
    OverlayAdd(entries, below, o, entry);
    UsageAfterPut(entries, o, entry);
    if LayerOk(entries, below) {
      AddedLayer(entries, below, o, coin, possibleOverwrite);
    }
  }

  lemma OverlayAdd(entries: CoinsMap, below: CoinSet, o: OutPoint, entry: CacheEntry)
    requires !entry.coin.IsSpent()
    ensures Overlay(entries[o := entry], below) == Overlay(entries, below)[o := entry.coin]
  {
  }

  lemma AddedLayer(entries: CoinsMap, below: CoinSet, o: OutPoint, coin: Coin, possibleOverwrite: bool)
    requires LayerOk(entries, below) && !coin.IsSpent() && !coin.IsUnspendable() && (possibleOverwrite || !Holds(entries, o))
    ensures LayerOk(entries[o := AddedEntry(entries, o, coin, possibleOverwrite)], below)
            <==> !Sneaks(entries, below, o, coin, possibleOverwrite)
  {
    var entry := AddedEntry(entries, o, coin, possibleOverwrite);
    var added := entries[o := entry];
    assert o in entries ==> EntryOk(entries[o], o, below);
    if EntryOk(entry, o, below) {
      OverlayUpdate(entries, below, o, entry);
    } else {
      assert added[o] == entry;
    }
  }

  /** Erasing an entry that is spent, FRESH or unmodified. */
  lemma EraseStep(entries: CoinsMap, below: CoinSet, o: OutPoint)
    requires LayerOk(entries, below) && AllUnspent(below) && o in entries
    ensures LayerOk(entries - {o}, below)
    ensures entries[o].isFresh ==> Overlay(entries - {o}, below) == Overlay(entries, below) - {o}
    ensures !entries[o].isDirty ==> Overlay(entries - {o}, below) == Overlay(entries, below)
    ensures TotalUsage(entries - {o}) == TotalUsage(entries) - entries[o].coin.DynamicMemoryUsage()
  {
    assert EntryOk(entries[o], o, below);
    OverlayErase(entries, below, o);
    TotalUsageWithout(entries, o);
  }

  lemma OverlayNothing(coins: CoinSet)
    ensures Overlay(map[], coins) == coins
  {
  }

  // ---------------------------------------------------------------- views

  datatype CoinsView = NoCoins | Disk(db: CoinsViewDB) | Cache(cache: CoinsViewCache)

  ghost function Footprint(view: CoinsView): set<object> {
    match view
    case NoCoins => {}
    case Disk(db) => {db}
    case Cache(cache) => cache.Repr
  }

  ghost predicate Sound(view: CoinsView)
    reads Footprint(view)
    decreases Footprint(view), 2
  {
    match view
    case NoCoins => true
    case Disk(db) => AllUnspent(db.coins)
    case Cache(cache) => cache.Valid()
  }

  /** The coins a view offers, as one flat map. */
  ghost function CoinsOf(view: CoinsView): (coins: CoinSet)
    requires Sound(view)
    reads Footprint(view)
    ensures AllUnspent(coins)
    decreases Footprint(view), 4
  {
    match view
    case NoCoins => map[]
    case Disk(db) => db.coins
    case Cache(cache) => cache.View()
  }

  /** Memory accounting is exact in every cache of the stack. */
  ghost predicate AllAccounted(view: CoinsView)
    requires Sound(view)
    reads Footprint(view)
    decreases Footprint(view), 6
  {
    view.Cache? ==> view.cache.Accounted()
  }

  /** Whether the stack ends in a database, so that a flush loses nothing. */
  ghost predicate Persistent(view: CoinsView) {
    match view
    case NoCoins => false
    case Disk(_) => true
    case Cache(cache) => cache.persistent
  }

  class CoinsViewDB {
    var coins: CoinSet

    constructor ()
      ensures coins == map[]
    {
      coins := map[];
    }

    /** Writes the DIRTY entries: erase the spent, store the others. */
    method BatchWrite(mapCoins: CoinsMap)
      requires AllUnspent(coins) && LayerOk(mapCoins, coins)
      modifies this
      ensures AllUnspent(coins) && coins == Overlay(mapCoins, old(coins))
    {
      var todo := mapCoins;
      while todo != map[]
        invariant AllUnspent(coins) && LayerOk(todo, coins)
        invariant Overlay(todo, coins) == Overlay(mapCoins, old(coins))
        decreases |todo|
      {
        var o :| o in todo;
        StoreStep(todo, coins, o);
        if todo[o].isDirty {
          if todo[o].coin.IsSpent() {
            coins := coins - {o};
          } else {
            coins := coins[o := todo[o].coin];
          }
        }
        todo := todo - {o};
      }
      OverlayNothing(coins);
    }
  }

  class CoinsViewCache {
    const base: CoinsView
    var cacheCoins: CoinsMap
    var cachedCoinsUsage: int
    ghost const Repr: set<object>
    ghost const persistent: bool

    /** The cache stands on a sound stack, whatever its own flags say. */
    ghost predicate Stacked()
      reads Repr
      ensures Stacked() ==> this in Repr
      decreases Repr, 0
    {
      && this !in Footprint(base)
      && Repr == {this} + Footprint(base)
      && persistent == Persistent(base)
      && Sound(base)
    }

    ghost predicate Valid()
      reads Repr
      ensures Valid() ==> this in Repr && Stacked()
      decreases Repr, 1
    {
      && this !in Footprint(base)
      && Repr == {this} + Footprint(base)
      && persistent == Persistent(base)
      && Sound(base)
      && LayerOk(cacheCoins, CoinsOf(base))
    }

    ghost function View(): (coins: CoinSet)
      requires Stacked()
      reads Repr
      ensures AllUnspent(coins)
      decreases Repr, 3
    {
      Overlay(cacheCoins, CoinsOf(base))
    }

    /** By how much the memory counter is off: 0 when it is exact. */
    ghost function Drift(): int
      reads this
    {
      cachedCoinsUsage - TotalUsage(cacheCoins)
    }

    ghost predicate Accounted()
      requires Valid()
      reads Repr
      decreases Repr, 5
    {
      Drift() == 0 && AllAccounted(base)
    }

    /** A new cache on top of a stack shows exactly what the stack shows. */
    constructor (baseIn: CoinsView)
      requires Sound(baseIn)
      ensures Valid() && fresh(Repr - Footprint(baseIn)) && base == baseIn
      ensures CoinsOf(base) == old(CoinsOf(baseIn)) && View() == CoinsOf(base)
      ensures old(AllAccounted(baseIn)) ==> Accounted()
    {
      base := baseIn;
      cacheCoins := map[];
      cachedCoinsUsage := 0;
      Repr := {this} + Footprint(baseIn);
      persistent := Persistent(baseIn);
    }

    /** Brings the coin into this cache if any layer has it, and every layer between. */
    method FetchCoin(o: OutPoint) returns (found: bool)
      requires Valid()
      modifies Repr
      ensures Valid() && View() == old(View()) && CoinsOf(base) == old(CoinsOf(base))
      ensures found <==> o in cacheCoins
      ensures found <==> (o in old(cacheCoins) || o in View())
      ensures forall p <- old(cacheCoins) :: p in cacheCoins && cacheCoins[p] == old(cacheCoins[p])
      ensures Drift() == old(Drift()) && (old(AllAccounted(base)) ==> AllAccounted(base))
      decreases Repr, 0
    {
      if o in cacheCoins {
        return true;
      }
      var tmp;
      found, tmp := GetFromBase(o);
      if found {
        Insert(o, tmp);
      }
    }

    /** The call `base->GetCoin`, dispatched on the kind of base. */
    method GetFromBase(o: OutPoint) returns (found: bool, coin: Coin)
      requires Valid()
      modifies Footprint(base)
      ensures Valid() && CoinsOf(base) == old(CoinsOf(base))
      ensures found <==> o in CoinsOf(base)
      ensures found ==> coin == CoinsOf(base)[o]
      ensures old(AllAccounted(base)) ==> AllAccounted(base)
      decreases Footprint(base), 2
    {
      coin := NULL_COIN;
      match base {
        case NoCoins =>
          found := false;
        case Disk(db) =>
          found := o in db.coins;
          if found {
            coin := db.coins[o];
          }
        case Cache(cache) =>
          found, coin := cache.GetCoin(o);
      }
    }

    /** Enters a coin read from the base. */
    method Insert(o: OutPoint, coin: Coin)
      requires Valid() && o !in cacheCoins && o in CoinsOf(base) && coin == CoinsOf(base)[o]
      modifies this
      ensures Valid() && View() == old(View()) && CoinsOf(base) == old(CoinsOf(base))
      ensures cacheCoins == old(cacheCoins)[o := CacheEntry(coin, false, false)]
      ensures Drift() == old(Drift())
    {
      FetchStep(cacheCoins, CoinsOf(base), o);
      cacheCoins := cacheCoins[o := CacheEntry(coin, false, coin.IsSpent())];
      cachedCoinsUsage := cachedCoinsUsage + coin.DynamicMemoryUsage();
    }

    /** A lookup answers from the flat map and changes no view in the stack. */
    method GetCoin(o: OutPoint) returns (found: bool, coin: Coin)
      requires Valid()
      modifies Repr
      ensures Valid() && View() == old(View()) && CoinsOf(base) == old(CoinsOf(base))
      ensures found <==> o in View()
      ensures found ==> coin == View()[o]
      ensures old(Accounted()) ==> Accounted()
      ensures Drift() == old(Drift())
      decreases Repr, 1
    {
      coin := NULL_COIN;
      found := FetchCoin(o);
      if found {
        coin := cacheCoins[o].coin;
        found := !coin.IsSpent();
      }
    }

    method HaveCoin(o: OutPoint) returns (have: bool)
      requires Valid()
      modifies Repr
      ensures Valid() && View() == old(View()) && CoinsOf(base) == old(CoinsOf(base))
      ensures have <==> o in View()
      ensures old(Accounted()) ==> Accounted()
      ensures Drift() == old(Drift())
    {
      var found := FetchCoin(o);
      have := found && !cacheCoins[o].coin.IsSpent();
    }

    /** Adding a coin is one assignment to the flat map and is invisible below.  The throw catches
        an overwrite in this cache only: without `possibleOverwrite`, an outpoint it does not hold
        but that has an unspent coin below sneaks in, and then, and only then, the flags are wrong.
        The throw leaves the view alone but has already lowered the memory counter. */
    method AddCoin(o: OutPoint, coin: Coin, possibleOverwrite: bool) returns (threw: bool)
      requires Stacked() && !coin.IsSpent()
      modifies this
      ensures Stacked() && CoinsOf(base) == old(CoinsOf(base))
      ensures threw <==> !coin.IsUnspendable() && !possibleOverwrite && Holds(old(cacheCoins), o)
      ensures View() == if threw || coin.IsUnspendable() then old(View()) else old(View())[o := coin]
      ensures old(Valid()) ==> (Valid() <==> !Sneaks(old(cacheCoins), old(CoinsOf(base)), o, coin, possibleOverwrite))
      ensures Sneaks(old(cacheCoins), old(CoinsOf(base)), o, coin, possibleOverwrite) ==>
                o in cacheCoins && !EntryOk(cacheCoins[o], o, CoinsOf(base))
      ensures old(cacheCoins.Keys) <= cacheCoins.Keys <= old(cacheCoins.Keys) + {o}
      ensures forall p <- old(cacheCoins) | p != o :: cacheCoins[p] == old(cacheCoins)[p]
      ensures threw ==> Drift() == old(Drift()) - old(cacheCoins)[o].coin.DynamicMemoryUsage()
      ensures !threw ==> Drift() == old(Drift())
    {
      if coin.IsUnspendable() {
        return false;
      }
      if possibleOverwrite || !Holds(cacheCoins, o) {
        AddStep(cacheCoins, CoinsOf(base), o, coin, possibleOverwrite);
      }
      threw := PutCoin(o, coin, possibleOverwrite);
    }

    /** The part of `AddCoin` after the test for unspendable scripts. */
    method PutCoin(o: OutPoint, coin: Coin, possibleOverwrite: bool) returns (threw: bool)
      modifies this
      ensures threw <==> !possibleOverwrite && o in old(cacheCoins) && !old(cacheCoins)[o].coin.IsSpent()
      ensures cacheCoins == if threw then old(cacheCoins)
                            else old(cacheCoins)[o := AddedEntry(old(cacheCoins), o, coin, possibleOverwrite)]
      ensures cachedCoinsUsage == old(cachedCoinsUsage) - UsageAt(old(cacheCoins), o)
                                  + if threw then 0 else coin.DynamicMemoryUsage()
    {
      var inserted := o !in cacheCoins;
      var entry := if inserted then CacheEntry(NULL_COIN, false, false) else cacheCoins[o];
      var setFresh := false;
      if !inserted {
        cachedCoinsUsage := cachedCoinsUsage - entry.coin.DynamicMemoryUsage();
      }
      if !possibleOverwrite {
        if !entry.coin.IsSpent() {
          return true;
        }
        setFresh := !entry.isDirty;
      }
      cacheCoins := cacheCoins[o := CacheEntry(coin, true, entry.isFresh || setFresh)];
      cachedCoinsUsage := cachedCoinsUsage + coin.DynamicMemoryUsage();
      return false;
    }

    /** Spending removes the outpoint from the flat map, whatever the layer it was in,
        and is invisible below.  The result also is true for an outpoint that is cached
        as already spent. */
    method SpendCoin(o: OutPoint) returns (found: bool, moveout: Coin)
      requires Valid()
      modifies Repr
      ensures Valid() && CoinsOf(base) == old(CoinsOf(base))
      ensures View() == old(View()) - {o}
      ensures found <==> (o in old(cacheCoins) || o in old(View()))
      ensures o in old(View()) ==> moveout == old(View())[o]
      ensures o in cacheCoins ==> cacheCoins[o] == CacheEntry(NULL_COIN, true, false)
      ensures Drift() == old(Drift()) && (old(AllAccounted(base)) ==> AllAccounted(base))
    {
      moveout := NULL_COIN;
      found := FetchCoin(o);
      if !found {
        RemoveAbsent(View(), o);
        return;
      }
      moveout := SpendCached(o);
    }

    /** The part of `SpendCoin` after the fetch. */
    method SpendCached(o: OutPoint) returns (moveout: Coin)
      requires Valid() && o in cacheCoins
      modifies this
      ensures Valid() && CoinsOf(base) == old(CoinsOf(base))
      ensures View() == old(View()) - {o}
      ensures o in old(View()) ==> moveout == old(View())[o]
      ensures o in cacheCoins ==> cacheCoins[o] == CacheEntry(NULL_COIN, true, false)
      ensures Drift() == old(Drift())
    {
      SpendStep(cacheCoins, CoinsOf(base), o);
      moveout := cacheCoins[o].coin;
      ClearEntry(o);
    }

    method ClearEntry(o: OutPoint)
      requires o in cacheCoins
      modifies this
      ensures cacheCoins == SpendEntry(old(cacheCoins), o)
      ensures cachedCoinsUsage == old(cachedCoinsUsage) - UsageAt(old(cacheCoins), o)
    {
      cachedCoinsUsage := cachedCoinsUsage - cacheCoins[o].coin.DynamicMemoryUsage();
      if cacheCoins[o].isFresh {
        cacheCoins := cacheCoins - {o};
      } else {
        cacheCoins := cacheCoins[o := CacheEntry(NULL_COIN, true, false)];
      }
    }

    /** An entry is dropped if and only if it is unmodified, and that changes no view. */
    method Uncache(o: OutPoint)
      requires Valid()
      modifies this
      ensures Valid() && View() == old(View()) && CoinsOf(base) == old(CoinsOf(base))
      ensures o in cacheCoins <==> o in old(cacheCoins) && (old(cacheCoins)[o].isDirty || old(cacheCoins)[o].isFresh)
      ensures cacheCoins - {o} == old(cacheCoins) - {o}
      ensures Drift() == old(Drift())
    {
      if o in cacheCoins && !cacheCoins[o].isDirty && !cacheCoins[o].isFresh {
        EraseStep(cacheCoins, CoinsOf(base), o);
        cachedCoinsUsage := cachedCoinsUsage - cacheCoins[o].coin.DynamicMemoryUsage();
        cacheCoins := cacheCoins - {o};
      }
    }

    /** The body of the loop of `BatchWrite`, on one entry of the child. */
    method WriteOne(o: OutPoint, child: CacheEntry) returns (threw: bool)
      modifies this
      ensures threw <==> child.isDirty && child.isFresh && o in old(cacheCoins) && !old(cacheCoins[o]).coin.IsSpent()
      ensures cacheCoins == if threw then old(cacheCoins) else WriteEntry(old(cacheCoins), o, child)
      ensures Drift() == old(Drift())
    {
      UsageAfterWrite(cacheCoins, o, child);
      threw := false;
      if child.isDirty {
        if o !in cacheCoins {
          if !(child.isFresh && child.coin.IsSpent()) {
            cacheCoins := cacheCoins[o := CacheEntry(child.coin, true, child.isFresh)];
            cachedCoinsUsage := cachedCoinsUsage + child.coin.DynamicMemoryUsage();
          }
        } else {
          var us := cacheCoins[o];
          if child.isFresh && !us.coin.IsSpent() {
            threw := true;
          } else if us.isFresh && child.coin.IsSpent() {
            cachedCoinsUsage := cachedCoinsUsage - us.coin.DynamicMemoryUsage();
            cacheCoins := cacheCoins - {o};
          } else {
            cachedCoinsUsage := cachedCoinsUsage - us.coin.DynamicMemoryUsage();
            cacheCoins := cacheCoins[o := CacheEntry(child.coin, true, us.isFresh)];
            cachedCoinsUsage := cachedCoinsUsage + child.coin.DynamicMemoryUsage();
          }
        }
      }
    }

    /** The same iteration inside a stack: the throw cannot happen, and the entries `todo`
        still to write show over the new contents what they showed over the old. */
    method WriteNext(o: OutPoint, child: CacheEntry, ghost todo: CoinsMap) returns (threw: bool)
      requires Valid() && o in todo && todo[o] == child && LayerOk(todo, View())
      modifies this
      ensures Valid() && !threw && CoinsOf(base) == old(CoinsOf(base))
      ensures LayerOk(todo - {o}, View()) && Overlay(todo - {o}, View()) == Overlay(todo, old(View()))
      ensures Drift() == old(Drift())
    {
      WriteStep(todo, cacheCoins, CoinsOf(base), o);
      threw := WriteOne(o, child);
    }

    /** Takes over a child's entries: afterwards this cache shows what the child showed.
        The misapplied-FRESH throw is unreachable (`threw` is false on every path). */
    method BatchWrite(mapCoins: CoinsMap) returns (threw: bool)
      requires Valid() && LayerOk(mapCoins, View())
      modifies this
      ensures Valid() && !threw && CoinsOf(base) == old(CoinsOf(base))
      ensures View() == Overlay(mapCoins, old(View()))
      ensures Drift() == old(Drift())
    {
      var todo := mapCoins;
      threw := false;
      while todo != map[] && !threw
        invariant !threw && Valid() && CoinsOf(base) == old(CoinsOf(base))
        invariant LayerOk(todo, View())
        invariant Overlay(todo, View()) == Overlay(mapCoins, old(View()))
        invariant Drift() == old(Drift())
        decreases |todo|
      {
        var o :| o in todo;
        threw := WriteNext(o, todo[o], todo);
        todo := todo - {o};
      }
      OverlayNothing(View());
    }

    /** Flushing pushes the view into the base and leaves it as it was; over the view
        that stores nothing it reports failure and the cached coins are gone. */
    method Flush() returns (ok: bool)
      requires Valid()
      modifies Repr
      ensures Valid() && (ok <==> !base.NoCoins?) && cacheCoins == map[]
      ensures View() == CoinsOf(base) == if ok then old(View()) else map[]
      ensures Drift() == 0 && (old(AllAccounted(base)) ==> AllAccounted(base))
    {
      assert TotalUsage(map[]) == 0;
      hide TotalUsage;
      match base {
        case NoCoins =>
          ok := false;
        case Disk(db) =>
          db.BatchWrite(cacheCoins);
          ok := true;
        case Cache(cache) =>
          var threw := cache.BatchWrite(cacheCoins);
          assert old(cache.Accounted()) ==> cache.Drift() == 0 && AllAccounted(cache.base);
          ok := !threw;
      }
      hide LayerOk, Overlay;
      cacheCoins := map[];
      cachedCoinsUsage := 0;
      OverlayNothing(CoinsOf(base));
    }

    /** Flushing any layer of the stack, not only the top one, changes no view above it. */
    method FlushAt(level: nat)
      requires Valid() && persistent
      modifies Repr
      ensures Valid() && View() == old(View())
      ensures old(Accounted()) ==> Accounted()
      decreases level
    {
      if level == 0 || !base.Cache? {
        var _ := Flush();
      } else {
        assert Accounted() ==> AllAccounted(base);
        assert AllAccounted(base) ==> base.cache.Accounted();
        base.cache.FlushAt(level - 1);
        assert CoinsOf(base) == old(CoinsOf(base));
        assert base.cache.Accounted() ==> AllAccounted(base);
      }
    }

    /** Uncaching in any layer of the stack changes no view above it. */
    method UncacheAt(level: nat, o: OutPoint)
      requires Valid()
      modifies Repr
      ensures Valid() && View() == old(View())
      ensures old(Accounted()) ==> Accounted()
      decreases level
    {
      if level == 0 || !base.Cache? {
        Uncache(o);
      } else {
        assert Accounted() ==> AllAccounted(base);
        assert AllAccounted(base) ==> base.cache.Accounted();
        base.cache.UncacheAt(level - 1, o);
        assert CoinsOf(base) == old(CoinsOf(base));
        assert base.cache.Accounted() ==> AllAccounted(base);
      }
    }
  }

  /** The FRESH flag `AddCoin` sets for an outpoint it does not hold keeps its promise if
      and only if nothing unspent lies below: the obligation on its callers is exact. */
  lemma FreshAddNeedsAbsence(entries: CoinsMap, below: CoinSet, o: OutPoint, coin: Coin)
    requires LayerOk(entries, below) && o !in entries && !coin.IsSpent()
    ensures LayerOk(entries[o := CacheEntry(coin, true, true)], below) <==> o !in below
  {
    var added := entries[o := CacheEntry(coin, true, true)];
    if o !in below {
      OverlayUpdate(entries, below, o, added[o]);
    } else {
      assert !EntryOk(added[o], o, below);
    }
  }

  /** When a caller breaks the obligation, a later spend brings the old coin back. */
  lemma MisusedFreshResurrects(entries: CoinsMap, below: CoinSet, o: OutPoint, coin: Coin)
    requires o !in entries && o in below && AllUnspent(below)
    ensures var added := entries[o := CacheEntry(coin, true, true)];
            var spent := Overlay(SpendEntry(added, o), below);
            o in spent && spent[o] == below[o]
  {
    var added := entries[o := CacheEntry(coin, true, true)];
    assert SpendEntry(added, o) == entries;
  }

  // ---------------------------------------------------------------- outputs of a transaction

  ghost function AddOutputs(coins: CoinSet, txid: nat, vout: seq<TxOut>, nHeight: nat, fCoinBase: bool): CoinSet {
    if vout == [] then coins else
      var rest := AddOutputs(coins, txid, vout[..|vout| - 1], nHeight, fCoinBase);
      var coin := Coin(vout[|vout| - 1], fCoinBase, nHeight);
      if coin.IsUnspendable() then rest else rest[OutPoint(txid, |vout| - 1) := coin]
  }

  lemma {:induction false} OutputsElsewhere(coins: CoinSet, txid: nat, vout: seq<TxOut>, nHeight: nat, fCoinBase: bool, o: OutPoint)
    requires o.hash != txid || o.n >= |vout|
    ensures var added := AddOutputs(coins, txid, vout, nHeight, fCoinBase);
            (o in added <==> o in coins) && (o in coins ==> added[o] == coins[o])
    decreases |vout|
  {
    if vout != [] {
      OutputsElsewhere(coins, txid, vout[..|vout| - 1], nHeight, fCoinBase, o);
    }
  }

  lemma NoOutputs(coins: CoinSet, txid: nat, nHeight: nat, fCoinBase: bool)
    ensures AddOutputs(coins, txid, [], nHeight, fCoinBase) == coins
  {
  }

  lemma NextOutput(coins: CoinSet, txid: nat, vout: seq<TxOut>, nHeight: nat, fCoinBase: bool, i: nat)
    requires i < |vout|
    ensures var added := AddOutputs(coins, txid, vout[..i], nHeight, fCoinBase);
            && (OutPoint(txid, i) in added <==> OutPoint(txid, i) in coins)
            && AddOutputs(coins, txid, vout[..i + 1], nHeight, fCoinBase)
               == if Spendable(vout[i]) then added[OutPoint(txid, i) := Coin(vout[i], fCoinBase, nHeight)] else added
  {
    assert vout[..i + 1][..i] == vout[..i];
    OutputsElsewhere(coins, txid, vout[..i], nHeight, fCoinBase, OutPoint(txid, i));
  }

  ghost predicate Spendable(out: TxOut) {
    !Coin(out, false, 0).IsUnspendable()
  }

  /** Output i of a transaction that is in the cache already, or only below it. */
  ghost predicate OutputHeld(entries: CoinsMap, txid: nat, vout: seq<TxOut>, i: nat)
    requires i < |vout|
  {
    Spendable(vout[i]) && Holds(entries, OutPoint(txid, i))
  }

  ghost predicate OutputSneaks(entries: CoinsMap, below: CoinSet, txid: nat, vout: seq<TxOut>, i: nat)
    requires i < |vout|
  {
    Spendable(vout[i]) && OutPoint(txid, i) !in entries && OutPoint(txid, i) in below
  }

  /** One iteration of `AddCoins` with the overwrite check, or for a coinbase. */
  method AddChecked(cache: CoinsViewCache, o: OutPoint, coin: Coin, checkForOverwrite: bool) returns (threw: bool)
    requires cache.Valid() && !coin.IsSpent() && (checkForOverwrite || coin.fCoinBase)
    modifies cache.Repr
    ensures cache.Valid() && CoinsOf(cache.base) == old(CoinsOf(cache.base)) && !threw
    ensures cache.View() == if Spendable(coin.out) then old(cache.View())[o := coin] else old(cache.View())
    ensures old(cache.Accounted()) ==> cache.Accounted()
  {
    var overwrite := coin.fCoinBase;
    if checkForOverwrite {
      overwrite := cache.HaveCoin(o);
    }
    threw := cache.AddCoin(o, coin, overwrite);
  }

  /** `AddCoins` with the overwrite check, or for a coinbase: every spendable output is entered in the
      flat map, and nothing is thrown. */
  method AddAllChecked(cache: CoinsViewCache, txid: nat, vout: seq<TxOut>, nHeight: nat, fCoinBase: bool, checkForOverwrite: bool)
    returns (threw: bool)
    requires cache.Valid() && (forall i | 0 <= i < |vout| :: vout[i].nValue != -1) && (checkForOverwrite || fCoinBase)
    modifies cache.Repr
    ensures cache.Valid() && CoinsOf(cache.base) == old(CoinsOf(cache.base)) && !threw
    ensures cache.View() == AddOutputs(old(cache.View()), txid, vout, nHeight, fCoinBase)
    ensures old(cache.Accounted()) ==> cache.Accounted()
  {
    hide AddOutputs;
    ghost var start := cache.View();
    var i := 0;
    threw := false;
    assert vout[..0] == [] && AddOutputs(start, txid, [], nHeight, fCoinBase) == start by {
      NoOutputs(start, txid, nHeight, fCoinBase);
    }
    while i < |vout| && !threw
      invariant 0 <= i <= |vout| && !threw
      invariant cache.Valid() && CoinsOf(cache.base) == old(CoinsOf(cache.base))
      invariant cache.View() == AddOutputs(start, txid, vout[..i], nHeight, fCoinBase)
      invariant old(cache.Accounted()) ==> cache.Accounted()
    {
      NextOutput(start, txid, vout, nHeight, fCoinBase, i);
      threw := AddChecked(cache, OutPoint(txid, i), Coin(vout[i], fCoinBase, nHeight), checkForOverwrite);
      i := i + 1;
    }
    assert vout[..i] == vout;
  }

  /** `AddCoins` without the overwrite check, outside a coinbase: it throws exactly at an output this
      cache holds, otherwise the outputs are entered in the flat map; the flags are right afterwards
      exactly when none of them sneaked in. */
  method AddAllUnchecked(cache: CoinsViewCache, txid: nat, vout: seq<TxOut>, nHeight: nat) returns (threw: bool)
    requires cache.Valid() && forall i | 0 <= i < |vout| :: vout[i].nValue != -1
    modifies cache
    ensures cache.Stacked() && CoinsOf(cache.base) == old(CoinsOf(cache.base))
    ensures threw <==> exists i :: 0 <= i < |vout| && OutputHeld(old(cache.cacheCoins), txid, vout, i)
    ensures !threw ==> cache.View() == AddOutputs(old(cache.View()), txid, vout, nHeight, false)
    ensures !threw ==> cache.Drift() == old(cache.Drift())
    ensures !threw ==>
              (cache.Valid() <==>
                 forall i | 0 <= i < |vout| :: !OutputSneaks(old(cache.cacheCoins), old(CoinsOf(cache.base)), txid, vout, i))
  {
    hide AddOutputs, OutputHeld, OutputSneaks, Entered, LayerOk;
    ghost var start, entries, below := cache.View(), cache.cacheCoins, CoinsOf(cache.base);
    var i := 0;
    threw := false;
    assert vout[..0] == [] && AddOutputs(start, txid, [], nHeight, false) == start by { NoOutputs(start, txid, nHeight, false); }
    NothingEntered(entries, below, txid, vout);
    while i < |vout|
      invariant 0 <= i <= |vout| && !threw && cache.Stacked() && CoinsOf(cache.base) == below
      invariant cache.View() == AddOutputs(start, txid, vout[..i], nHeight, false) && cache.Drift() == old(cache.Drift())
      invariant Entered(entries, cache.cacheCoins, below, txid, vout, i)
      invariant (forall j | 0 <= j < i :: !OutputSneaks(entries, below, txid, vout, j)) ==> cache.Valid()
    {
      NextOutput(start, txid, vout, nHeight, false, i);
      ghost var before := cache.cacheCoins;
      OutputThere(entries, before, below, txid, vout, i);
      threw := AddUnchecked(cache, OutPoint(txid, i), Coin(vout[i], false, nHeight));
      if threw {
        return;
      }
      OutputEntered(entries, before, cache.cacheCoins, below, txid, vout, i);
      i := i + 1;
    }
    assert vout[..i] == vout;
    AllEntered(entries, cache.cacheCoins, below, txid, vout);
  }

  /** Of the first i outputs none was held, those that sneaked in have wrong flags, and the entries for later
      outputs are as they were. */
  ghost predicate Entered(entries: CoinsMap, now: CoinsMap, below: CoinSet, txid: nat, vout: seq<TxOut>, i: nat)
    requires i <= |vout|
  {
    && (forall j | 0 <= j < i :: !OutputHeld(entries, txid, vout, j))
    && (forall j | 0 <= j < i && OutputSneaks(entries, below, txid, vout, j) ::
          OutPoint(txid, j) in now && !EntryOk(now[OutPoint(txid, j)], OutPoint(txid, j), below))
    && SameFrom(entries, now, txid, i)
  }

  lemma NothingEntered(entries: CoinsMap, below: CoinSet, txid: nat, vout: seq<TxOut>)
    ensures Entered(entries, entries, below, txid, vout, 0)
  {
  }

  /** The next output is where it was at the start. */
  lemma OutputThere(entries: CoinsMap, now: CoinsMap, below: CoinSet, txid: nat, vout: seq<TxOut>, i: nat)
    requires i < |vout| && Entered(entries, now, below, txid, vout, i)
    ensures OutputHeld(entries, txid, vout, i) <==> Spendable(vout[i]) && Holds(now, OutPoint(txid, i))
    ensures OutputSneaks(entries, below, txid, vout, i) <==>
              Spendable(vout[i]) && OutPoint(txid, i) !in now && OutPoint(txid, i) in below
  {
  }

  lemma OutputEntered(entries: CoinsMap, before: CoinsMap, after: CoinsMap, below: CoinSet, txid: nat, vout: seq<TxOut>, i: nat)
    requires i < |vout| && Entered(entries, before, below, txid, vout, i) && !OutputHeld(entries, txid, vout, i)
    requires forall p | p != OutPoint(txid, i) :: (p in after <==> p in before) && (p in after ==> after[p] == before[p])
    requires OutputSneaks(entries, below, txid, vout, i) ==>
               OutPoint(txid, i) in after && !EntryOk(after[OutPoint(txid, i)], OutPoint(txid, i), below)
    ensures Entered(entries, after, below, txid, vout, i + 1)
  {
    hide OutputHeld, OutputSneaks, EntryOk;
  }

  lemma AllEntered(entries: CoinsMap, now: CoinsMap, below: CoinSet, txid: nat, vout: seq<TxOut>)
    requires Entered(entries, now, below, txid, vout, |vout|)
    ensures forall j | 0 <= j < |vout| :: !OutputHeld(entries, txid, vout, j)
    ensures LayerOk(now, below) ==> forall j | 0 <= j < |vout| :: !OutputSneaks(entries, below, txid, vout, j)
  {
    hide OutputHeld, OutputSneaks, EntryOk;
  }

  /** The entries for later outputs are as they were. */
  ghost predicate SameFrom(entries: CoinsMap, now: CoinsMap, txid: nat, i: nat) {
    forall j: nat | j >= i ::
      (OutPoint(txid, j) in now <==> OutPoint(txid, j) in entries)
      && (OutPoint(txid, j) in entries ==> now[OutPoint(txid, j)] == entries[OutPoint(txid, j)])
  }

  /** One iteration of `AddCoins` without the overwrite check.  Flags that were wrong stay wrong. */
  method AddUnchecked(cache: CoinsViewCache, o: OutPoint, coin: Coin) returns (threw: bool)
    requires cache.Stacked() && !coin.IsSpent()
    modifies cache
    ensures cache.Stacked() && CoinsOf(cache.base) == old(CoinsOf(cache.base))
    ensures threw <==> Spendable(coin.out) && Holds(old(cache.cacheCoins), o)
    ensures !threw ==> cache.View() == if Spendable(coin.out) then old(cache.View())[o := coin] else old(cache.View())
    ensures !threw ==> cache.Drift() == old(cache.Drift())
    ensures var sneaks := Spendable(coin.out) && o !in old(cache.cacheCoins) && o in old(CoinsOf(cache.base));
            && (old(cache.Valid()) && !sneaks ==> cache.Valid())
            && (sneaks ==> o in cache.cacheCoins && !EntryOk(cache.cacheCoins[o], o, CoinsOf(cache.base)))
    ensures forall p | p != o :: (p in cache.cacheCoins <==> p in old(cache.cacheCoins))
              && (p in cache.cacheCoins ==> cache.cacheCoins[p] == old(cache.cacheCoins)[p])
  {
    threw := cache.AddCoin(o, coin, false);
  }

  /** `AddCoins`: the outputs of a transaction enter the flat map. */
  method AddCoins(cache: CoinsViewCache, txid: nat, vout: seq<TxOut>, nHeight: nat, fCoinBase: bool,
                  checkForOverwrite: bool) returns (threw: bool)
    requires cache.Valid() && forall i | 0 <= i < |vout| :: vout[i].nValue != -1
    modifies cache.Repr
    ensures cache.Stacked() && CoinsOf(cache.base) == old(CoinsOf(cache.base))
    ensures threw <==> !checkForOverwrite && !fCoinBase
                       && exists i :: 0 <= i < |vout| && OutputHeld(old(cache.cacheCoins), txid, vout, i)
    ensures !threw ==> cache.View() == AddOutputs(old(cache.View()), txid, vout, nHeight, fCoinBase)
    ensures !threw ==>
              (cache.Valid() <==>
                 (checkForOverwrite || fCoinBase
                  || forall i | 0 <= i < |vout| :: !OutputSneaks(old(cache.cacheCoins), old(CoinsOf(cache.base)), txid, vout, i)))
    ensures !threw && old(cache.Accounted()) && cache.Valid() ==> cache.Accounted()
  {
    hide AddOutputs, OutputHeld, OutputSneaks;
    if checkForOverwrite || fCoinBase {
      threw := AddAllChecked(cache, txid, vout, nHeight, fCoinBase, checkForOverwrite);
    } else {
      threw := AddAllUnchecked(cache, txid, vout, nHeight);
    }
  }

  // ---------------------------------------------------------------- whole runs

  datatype Op =
    | Add(o: OutPoint, coin: Coin, possibleOverwrite: bool)
    | Spend(o: OutPoint)
    | Lookup(o: OutPoint)
    | Uncache(level: nat, o: OutPoint)
    | Flush(level: nat)

  /** One operation on the flat map. */
  ghost function FlatStep(coins: CoinSet, op: Op): CoinSet {
    match op
    case Add(o, coin, _) => if coin.IsUnspendable() then coins else coins[o := coin]
    case Spend(o) => coins - {o}
    case _ => coins
  }

  ghost function FlatRun(coins: CoinSet, ops: seq<Op>): CoinSet {
    if ops == [] then coins else FlatStep(FlatRun(coins, ops[..|ops| - 1]), ops[|ops| - 1])
  }

  ghost predicate Permitted(coins: CoinSet, op: Op) {
    op.Add? ==> !op.coin.IsSpent() && (op.coin.IsUnspendable() || op.possibleOverwrite || op.o !in coins)
  }

  /** What a lookup or a spend hands out. */
  ghost predicate AnswerOk(coins: CoinSet, op: Op, answer: Option<Coin>) {
    match op
    case Lookup(o) => answer == if o in coins then Some(coins[o]) else None
    case Spend(o) => o in coins ==> answer == Some(coins[o])
    case _ => true
  }

  method Perform(top: CoinsViewCache, op: Op) returns (answer: Option<Coin>)
    requires top.Valid() && top.persistent && Permitted(top.View(), op)
    modifies top.Repr
    ensures top.Valid() && top.View() == FlatStep(old(top.View()), op)
    ensures AnswerOk(old(top.View()), op, answer)
    ensures old(top.Accounted()) ==> top.Accounted()
  {
    answer := None;
    match op {
      case Add(o, coin, possibleOverwrite) =>
        var _ := top.AddCoin(o, coin, possibleOverwrite);
      case Spend(o) =>
        var found, coin := top.SpendCoin(o);
        if found {
          answer := Some(coin);
        }
      case Lookup(o) =>
        var found, coin := top.GetCoin(o);
        if found {
          answer := Some(coin);
        }
      case Uncache(level, o) =>
        top.UncacheAt(level, o);
      case Flush(level) =>
        top.FlushAt(level);
    }
  }

  ghost predicate AnswersOk(coins: CoinSet, ops: seq<Op>, answers: seq<Option<Coin>>) {
    && |answers| <= |ops|
    && forall i | 0 <= i < |answers| :: AnswerOk(FlatRun(coins, ops[..i]), ops[i], answers[i])
  }

  lemma OneMoreAnswer(coins: CoinSet, ops: seq<Op>, answers: seq<Option<Coin>>, answer: Option<Coin>)
    requires |answers| < |ops| && AnswersOk(coins, ops, answers)
    requires AnswerOk(FlatRun(coins, ops[..|answers|]), ops[|answers|], answer)
    ensures AnswersOk(coins, ops, answers + [answer])
    ensures FlatRun(coins, ops[..|answers| + 1]) == FlatStep(FlatRun(coins, ops[..|answers|]), ops[|answers|])
  {
    hide FlatStep, AnswerOk;
    assert ops[..|answers| + 1][..|answers|] == ops[..|answers|];
  }

  /** Every run of permitted operations on the top of a stack of any depth, with flushes
      and uncaching in any layer in between, shows and answers what the flat map does. */
  method Run(top: CoinsViewCache, ops: seq<Op>) returns (answers: seq<Option<Coin>>)
    requires top.Valid() && top.persistent
    requires forall i | 0 <= i < |ops| :: Permitted(FlatRun(top.View(), ops[..i]), ops[i])
    modifies top.Repr
    ensures top.Valid() && top.View() == FlatRun(old(top.View()), ops)
    ensures |answers| == |ops| && AnswersOk(old(top.View()), ops, answers)
    ensures old(top.Accounted()) ==> top.Accounted()
  {
    ghost var start := top.View();
    answers := [];
    while |answers| < |ops|
      invariant AnswersOk(start, ops, answers)
      invariant top.Valid() && top.View() == FlatRun(start, ops[..|answers|])
      invariant old(top.Accounted()) ==> top.Accounted()
    {
      assert Permitted(FlatRun(start, ops[..|answers|]), ops[|answers|]);
      var answer := Perform(top, ops[|answers|]);
      OneMoreAnswer(start, ops, answers, answer);
      answers := answers + [answer];
    }
    assert ops[..|ops|] == ops;
  }
}
