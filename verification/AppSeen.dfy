/** SeenCache of app/App.tsx, an insertion-ordered map in milliseconds, and what it holds of a history of adds. */
module AppSeen {
  import opened SeenSpec
  import opened SeenWindow
  import opened Pigeonhole

  const SEEN_CACHE_MAX: nat := 1000
  const SEEN_CACHE_TTL_MS: int := 60000

  datatype Item = Item(id: Id, ms: int)

  // ---- a Map, as its entries in insertion order ----

  function Find(m: seq<Item>, id: Id): (j: nat)
    ensures j <= |m|
    ensures forall i :: 0 <= i < j ==> m[i].id != id
    ensures j < |m| ==> m[j].id == id
  {
    if m == [] || m[0].id == id then 0 else 1 + Find(m[1..], id)
  }

  function Delete(m: seq<Item>, j: nat): seq<Item>
    requires j < |m|
  {
    m[..j] + m[j + 1..]
  }

  // Setting a key that is present keeps its place.
  function Set(m: seq<Item>, id: Id, ms: int): seq<Item>
  {
    var j := Find(m, id);
    if j < |m| then m[j := Item(id, ms)] else m + [Item(id, ms)]
  }

  function MapHas(m: seq<Item>, id: Id, nowMs: int): bool
  {
    var j := Find(m, id);
    j < |m| && nowMs - m[j].ms <= SEEN_CACHE_TTL_MS
  }

  function AfterHas(m: seq<Item>, id: Id, nowMs: int): seq<Item>
  {
    var j := Find(m, id);
    if j < |m| && nowMs - m[j].ms > SEEN_CACHE_TTL_MS then Delete(m, j) else m
  }

  function AfterAdd(m: seq<Item>, id: Id, nowMs: int): seq<Item>
  {
    Set(if |m| >= SEEN_CACHE_MAX then Delete(m, 0) else m, id, nowMs)
  }

  class AppSeenCache {
    var cache: seq<Item>

    constructor ()
      ensures cache == []
    {
      cache := [];
    }

    method Has(id: Id, nowMs: int) returns (seen: bool)
      modifies this
      ensures cache == AfterHas(old(cache), id, nowMs)
      ensures seen == MapHas(old(cache), id, nowMs)
    {
      var j := Find(cache, id);
      if j == |cache| {
        return false;
      }
      if nowMs - cache[j].ms > SEEN_CACHE_TTL_MS {
        cache := Delete(cache, j);
        return false;
      }
      return true;
    }

    method Add(id: Id, nowMs: int)
      modifies this
      ensures cache == AfterAdd(old(cache), id, nowMs)
    {
      if |cache| >= SEEN_CACHE_MAX {
        cache := Delete(cache, 0);
      }
      cache := Set(cache, id, nowMs);
    }
  }

  // ---- the map against the history of adds ----

  // Each item is some add of the log, in order, and every young add among the last thousand is there.
  ghost predicate Tracks(m: seq<Item>, log: seq<Rec>, idx: seq<int>, now: int)
  {
    ItemsAre(m, log, idx) && Different(m, idx) && HasYoung(log, idx, now)
  }

  ghost predicate ItemsAre(m: seq<Item>, log: seq<Rec>, idx: seq<int>)
  {
    && |m| == |idx| <= SEEN_CACHE_MAX
    && forall j :: 0 <= j < |idx| ==> 0 <= idx[j] < |log| && m[j] == Item(log[idx[j]].id, log[idx[j]].time)
  }

  ghost predicate Different(m: seq<Item>, idx: seq<int>)
    requires |m| == |idx|
  {
    forall i, j :: 0 <= i < j < |idx| ==> idx[i] < idx[j] && m[i].id != m[j].id
  }

  ghost predicate HasYoung(log: seq<Rec>, idx: seq<int>, now: int)
  {
    forall k :: 0 <= k < |log| && |log| - CAPACITY <= k && now - log[k].time <= SEEN_CACHE_TTL_MS ==> k in idx
  }

  // At most a minute old by the finer clock, and among the last thousand adds.
  ghost predicate Recent(log: seq<Rec>, id: Id, now: int)
  {
    exists k :: 0 <= k < |log| && |log| - CAPACITY <= k && log[k].id == id && now - log[k].time <= SEEN_CACHE_TTL_MS
  }

  ghost predicate Ordered(log: seq<Rec>)
  {
    forall k, l :: 0 <= k < l < |log| ==> log[k].time <= log[l].time
  }

  // Increasing indices below n: the first of a thousand is at most n - 1000.
  lemma {:induction false} RoomAbove(idx: seq<int>, n: int, i: nat)
    requires forall a, b :: 0 <= a < b < |idx| ==> idx[a] < idx[b]
    requires i < |idx| && idx[|idx| - 1] < n
    ensures idx[i] <= n - |idx| + i
    decreases |idx| - i
  {
    if i < |idx| - 1 {
      RoomAbove(idx, n, i + 1);
    }
  }

  // A range and one number outside it need that many distinct entries.
  lemma TooMany(f: seq<int>, a: int, b: int, v: int)
    requires a <= b && v < a && Distinct(f) && v in f && forall k :: a <= k < b ==> k in f
    ensures |f| > b - a
  {
    var s := Range(a, b) + {v};
    RangeSize(a, b);
    SubsetSize(s, Elements(f));
    DistinctSize(f);
  }

  // An unexpired item is among the last thousand adds.
  lemma {:induction false} YoungIsRecent(m: seq<Item>, log: seq<Rec>, idx: seq<int>, now: int, j: nat)
    requires Tracks(m, log, idx, now) && Ordered(log)
    requires j < |idx| && now - log[idx[j]].time <= SEEN_CACHE_TTL_MS
    ensures |log| - CAPACITY <= idx[j]
  {
    hide Range, Elements, Distinct;
    var n := |log|;
    if idx[j] < n - CAPACITY {
      forall k | n - CAPACITY <= k < n
        ensures k in idx
      {
        assert log[idx[j]].time <= log[k].time;
      }
      TooMany(idx, n - CAPACITY, n, idx[j]);
    }
  }

  /** The map's answer is membership in the window of its clock. */
  lemma HasIsWindow(m: seq<Item>, log: seq<Rec>, idx: seq<int>, id: Id, now: int)
    requires Tracks(m, log, idx, now) && Ordered(log)
    ensures MapHas(m, id, now) <==> Recent(log, id, now)
  {
    var j := Find(m, id);
    if MapHas(m, id, now) {
      YoungIsRecent(m, log, idx, now, j);
      assert log[idx[j]].id == id;
    }
    if Recent(log, id, now) {
      var k :| 0 <= k < |log| && |log| - CAPACITY <= k && log[k].id == id && now - log[k].time <= SEEN_CACHE_TTL_MS;
      var i :| 0 <= i < |idx| && idx[i] == k;
      assert m[i].id == id;
      assert i == j;
    }
  }

  // Without an item that has expired.
  lemma DeleteTracks(m: seq<Item>, log: seq<Rec>, idx: seq<int>, j: nat, now: int)
    requires Tracks(m, log, idx, now) && j < |m| && now - log[idx[j]].time > SEEN_CACHE_TTL_MS
    ensures Tracks(Delete(m, j), log, idx[..j] + idx[j + 1..], now)
  {
    hide Different, HasYoung;
    var idx', m' := idx[..j] + idx[j + 1..], Delete(m, j);
    forall a | 0 <= a < |idx'|
      ensures 0 <= idx'[a] < |log| && m'[a] == Item(log[idx'[a]].id, log[idx'[a]].time)
    {
      var b := if a < j then a else a + 1;
      assert idx'[a] == idx[b] && m'[a] == m[b];
    }
    DeleteDifferent(m, idx, j);
    DeleteKeepsYoung(log, idx, j, now);
  }

  lemma DeleteDifferent(m: seq<Item>, idx: seq<int>, j: nat)
    requires |m| == |idx| && Different(m, idx) && j < |m|
    ensures Different(Delete(m, j), idx[..j] + idx[j + 1..])
  {
    var idx', m' := idx[..j] + idx[j + 1..], Delete(m, j);
    forall a, b | 0 <= a < b < |idx'|
      ensures idx'[a] < idx'[b] && m'[a].id != m'[b].id
    {
      var c, d := if a < j then a else a + 1, if b < j then b else b + 1;
      assert idx'[a] == idx[c] && idx'[b] == idx[d] && m'[a] == m[c] && m'[b] == m[d];
    }
  }

  lemma DeleteKeepsYoung(log: seq<Rec>, idx: seq<int>, j: nat, now: int)
    requires HasYoung(log, idx, now) && j < |idx| && 0 <= idx[j] < |log| && now - log[idx[j]].time > SEEN_CACHE_TTL_MS
    ensures HasYoung(log, idx[..j] + idx[j + 1..], now)
  {
    forall k | 0 <= k < |log| && |log| - CAPACITY <= k && now - log[k].time <= SEEN_CACHE_TTL_MS
      ensures k in idx[..j] + idx[j + 1..]
    {
      var i :| 0 <= i < |idx| && idx[i] == k;
      assert i != j;
      assert (idx[..j] + idx[j + 1..])[if i < j then i else i - 1] == k;
    }
  }

  // A query that is answered with no leaves nothing under its key.
  lemma NoneLeft(m: seq<Item>, id: Id, nowMs: int)
    requires forall i, j :: 0 <= i < j < |m| ==> m[i].id != m[j].id
    requires !MapHas(m, id, nowMs)
    ensures forall i :: 0 <= i < |AfterHas(m, id, nowMs)| ==> AfterHas(m, id, nowMs)[i].id != id
  {
    var j, m' := Find(m, id), AfterHas(m, id, nowMs);
    if j < |m| {
      forall i | 0 <= i < |m'|
        ensures m'[i].id != id
      {
        assert m'[i] == m[if i < j then i else i + 1];
      }
    }
  }

  lemma HasKeeps(m: seq<Item>, log: seq<Rec>, idx: seq<int>, id: Id, now: int) returns (idx': seq<int>)
    requires Tracks(m, log, idx, now)
    ensures Tracks(AfterHas(m, id, now), log, idx', now)
    ensures !MapHas(m, id, now) ==>
      forall i :: 0 <= i < |AfterHas(m, id, now)| ==> AfterHas(m, id, now)[i].id != id
  {
    var j := Find(m, id);
    TracksParts(m, log, idx, now);
    hide Tracks, Find, Delete;
    if !MapHas(m, id, now) {
      NoneLeft(m, id, now);
    }
    if j < |m| && now - m[j].ms > SEEN_CACHE_TTL_MS {
      idx' := idx[..j] + idx[j + 1..];
      DeleteTracks(m, log, idx, j, now);
    } else {
      idx' := idx;
    }
  }

  lemma TracksParts(m: seq<Item>, log: seq<Rec>, idx: seq<int>, now: int)
    requires Tracks(m, log, idx, now)
    ensures |m| == |idx|
    ensures forall j :: 0 <= j < |idx| ==> 0 <= idx[j] < |log| && m[j] == Item(log[idx[j]].id, log[idx[j]].time)
    ensures forall i, j :: 0 <= i < j < |m| ==> m[i].id != m[j].id
  {
  }

  // A new key goes to the end, and a full map loses its first entry.
  lemma AfterAddIs(m: seq<Item>, id: Id, nowMs: int)
    requires |m| <= SEEN_CACHE_MAX && forall i :: 0 <= i < |m| ==> m[i].id != id
    ensures AfterAdd(m, id, nowMs) == m[if |m| >= SEEN_CACHE_MAX then 1 else 0..] + [Item(id, nowMs)]
  {
    if |m| >= SEEN_CACHE_MAX {
      assert Delete(m, 0) == m[1..];
    }
  }

  lemma AppendTracks(m: seq<Item>, log: seq<Rec>, idx: seq<int>, id: Id, now: int, cut: nat)
    requires Tracks(m, log, idx, now) && cut == if |m| >= SEEN_CACHE_MAX then 1 else 0
    requires forall i :: 0 <= i < |m| ==> m[i].id != id
    ensures Tracks(m[cut..] + [Item(id, now)], log + [Rec(id, now)], idx[cut..] + [|log|], now)
  {
    hide Different, HasYoung;
    var m', idx', log' := m[cut..] + [Item(id, now)], idx[cut..] + [|log|], log + [Rec(id, now)];
    forall j | 0 <= j < |idx'|
      ensures 0 <= idx'[j] < |log'| && m'[j] == Item(log'[idx'[j]].id, log'[idx'[j]].time)
    {
      if j < |idx'| - 1 {
        assert idx'[j] == idx[cut + j] && m'[j] == m[cut + j] && log'[idx[cut + j]] == log[idx[cut + j]];
      }
    }
    AppendDifferent(m, idx, Item(id, now), |log|, cut);
    AppendHasYoung(m, log, idx, Rec(id, now), now, cut);
  }

  lemma AppendDifferent(m: seq<Item>, idx: seq<int>, item: Item, n: int, cut: nat)
    requires |m| == |idx| && cut <= |m| && Different(m, idx)
    requires forall j :: 0 <= j < |m| ==> idx[j] < n && m[j].id != item.id
    ensures Different(m[cut..] + [item], idx[cut..] + [n])
  {
    var m', idx' := m[cut..] + [item], idx[cut..] + [n];
    forall a, b | 0 <= a < b < |idx'|
      ensures idx'[a] < idx'[b] && m'[a].id != m'[b].id
    {
      assert idx'[a] == idx[cut + a] && m'[a] == m[cut + a];
      if b < |idx'| - 1 {
        assert idx'[b] == idx[cut + b] && m'[b] == m[cut + b];
      }
    }
  }

  lemma AppendHasYoung(m: seq<Item>, log: seq<Rec>, idx: seq<int>, r: Rec, now: int, cut: nat)
    requires Tracks(m, log, idx, now) && cut == if |m| >= SEEN_CACHE_MAX then 1 else 0
    ensures HasYoung(log + [r], idx[cut..] + [|log|], now)
  {
    var idx', log' := idx[cut..] + [|log|], log + [r];
    forall k | 0 <= k < |log'| && |log'| - CAPACITY <= k && now - log'[k].time <= SEEN_CACHE_TTL_MS
      ensures k in idx'
    {
      if k < |log| {
        assert log'[k] == log[k];
        var i :| 0 <= i < |idx| && idx[i] == k;
        if cut == 1 {
          RoomAbove(idx, |log|, 0);
        }
        assert idx'[i - cut] == k;
      } else {
        assert idx'[|idx'| - 1] == k;
      }
    }
  }

  lemma AddKeepsTracking(m: seq<Item>, log: seq<Rec>, idx: seq<int>, id: Id, now: int) returns (idx': seq<int>)
    requires Tracks(m, log, idx, now)
    requires forall i :: 0 <= i < |m| ==> m[i].id != id
    ensures Tracks(AfterAdd(m, id, now), log + [Rec(id, now)], idx', now)
  {
    hide AfterAdd;
    AfterAddIs(m, id, now);
    var cut := if |m| >= SEEN_CACHE_MAX then 1 else 0;
    AppendTracks(m, log, idx, id, now, cut);
    idx' := idx[cut..] + [|log|];
  }

  lemma TimePasses(m: seq<Item>, log: seq<Rec>, idx: seq<int>, now: int, later: int)
    requires Tracks(m, log, idx, now) && now <= later
    ensures Tracks(m, log, idx, later)
  {
  }
}
