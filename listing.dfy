/** Entries of one page of the public server listing, and the filter that turns
    them into the records kept in the snapshot (fetch_servers.js:39-47). */
module Listing {

  datatype Option<+T> = None | Some(value: T)

  /** The JavaScript values a `created` field can hold, as far as truthiness
      is concerned: `undefined`, `null`, booleans, numbers and strings. */
  datatype JsValue = Undefined | Null | Bool(b: bool) | Number(n: int) | Text(s: string)

  /** JavaScript truthiness: `undefined`, `null`, `false`, `0` and `""` are falsy. */
  predicate Truthy(v: JsValue) {
    match v
    case Undefined => false
    case Null => false
    case Bool(b) => b
    case Number(n) => n != 0
    case Text(s) => s != ""
  }

  /** One raw entry of a page. `playing` and `maxPlayers` are `None` when the
      field is absent, which makes the `<` comparison of the source false. */
  datatype Entry = Entry(id: string, playing: Option<int>, maxPlayers: Option<int>, created: JsValue)

  /** One record of the snapshot. */
  datatype Server = Server(id: string, playing: int, maxPlayers: int, created: JsValue)

  /** The test `s.playing < s.maxPlayers`. */
  predicate HasFreeSlot(e: Entry) {
    e.playing.Some? && e.maxPlayers.Some? && e.playing.value < e.maxPlayers.value
  }

  predicate IsOpen(s: Server) {
    s.playing < s.maxPlayers
  }

  /** The record pushed for a kept entry: the numbers and the id are copied,
      `created` becomes `null` unless the source value is truthy. */
  function ToServer(e: Entry): (s: Server)
    requires HasFreeSlot(e)
    ensures IsOpen(s)
    ensures s.id == e.id && Some(s.playing) == e.playing && Some(s.maxPlayers) == e.maxPlayers
    ensures s.created != Undefined && (Truthy(s.created) <==> Truthy(e.created))
    ensures Truthy(e.created) ==> s.created == e.created
    ensures !Truthy(e.created) ==> s.created == Null
  {
    Server(e.id, e.playing.value, e.maxPlayers.value, if Truthy(e.created) then e.created else Null)
  }

  /** The records the loop over one page pushes, in page order. */
  function Kept(entries: seq<Entry>): (servers: seq<Server>)
    ensures |servers| <= |entries|
    ensures forall s :: s in servers ==> IsOpen(s)
  {
    if entries == [] then []
    else
      var n := |entries| - 1;
      Kept(entries[..n]) + (if HasFreeSlot(entries[n]) then [ToServer(entries[n])] else [])
  }

  /** The positions, in increasing order, of the entries that have a free slot. */
  function KeptIndices(entries: seq<Entry>): (ix: seq<int>)
    ensures forall k :: 0 <= k < |ix| ==> 0 <= ix[k] < |entries| && HasFreeSlot(entries[ix[k]])
    ensures forall j, k :: 0 <= j < k < |ix| ==> ix[j] < ix[k]
    ensures forall i :: 0 <= i < |entries| && HasFreeSlot(entries[i]) ==> i in ix
  {
    if entries == [] then []
    else
      var n := |entries| - 1;
      var init := KeptIndices(entries[..n]);
      assert forall i :: 0 <= i < n ==> entries[..n][i] == entries[i];
      init + (if HasFreeSlot(entries[n]) then [n] else [])
  }

  /** The filter is exactly the comprehension over the positions of the open
      entries: every open entry is kept, in order, and nothing else is. */
  lemma {:induction false} KeptByIndices(entries: seq<Entry>)
    ensures var ix := KeptIndices(entries);
      Kept(entries) == seq(|ix|, k requires 0 <= k < |ix| => ToServer(entries[ix[k]]))
  {
    if entries != [] {
      var n := |entries| - 1;
      var init := entries[..n];
      KeptByIndices(init);
      var ix0 := KeptIndices(init);
      var ix := KeptIndices(entries);
      var want := seq(|ix|, k requires 0 <= k < |ix| => ToServer(entries[ix[k]]));
      assert |Kept(entries)| == |want|;
      forall k | 0 <= k < |ix|
        ensures Kept(entries)[k] == want[k]
      {
        if k < |ix0| {
          assert ix[k] == ix0[k];
          assert init[ix0[k]] == entries[ix0[k]];
        }
      }
    }
  }

  /** A record is in the output exactly when it comes from an entry with a free slot. */
  lemma {:induction false} KeptExactly(entries: seq<Entry>, s: Server)
    ensures s in Kept(entries) <==> exists e :: e in entries && HasFreeSlot(e) && ToServer(e) == s
  {
    if entries != [] {
      var n := |entries| - 1;
      var init := entries[..n];
      KeptExactly(init, s);
      assert entries == init + [entries[n]];
      if exists e :: e in entries && HasFreeSlot(e) && ToServer(e) == s {
        var e :| e in entries && HasFreeSlot(e) && ToServer(e) == s;
        if e != entries[n] {
          assert e in init;
        }
      }
    }
  }

  /** Filtering two pages one after the other is filtering their concatenation:
      the order of arrival is kept across pages. */
  lemma {:induction false} KeptAppend(a: seq<Entry>, b: seq<Entry>)
    ensures Kept(a + b) == Kept(a) + Kept(b)
  {
    if b == [] {
      assert a + b == a;
    } else {
      var n := |b| - 1;
      KeptAppend(a, b[..n]);
      var ab := a + b;
      assert ab[..|ab| - 1] == a + b[..n];
      assert ab[|ab| - 1] == b[n];
      var last := if HasFreeSlot(b[n]) then [ToServer(b[n])] else [];
      calc {
        Kept(ab);
        Kept(a + b[..n]) + last;
        (Kept(a) + Kept(b[..n])) + last;
        { AppendAssoc(Kept(a), Kept(b[..n]), last); }
        Kept(a) + (Kept(b[..n]) + last);
        Kept(a) + Kept(b);
      }
    }
  }

  lemma AppendAssoc<T>(a: seq<T>, b: seq<T>, c: seq<T>)
    ensures (a + b) + c == a + (b + c)
  {
  }
}
