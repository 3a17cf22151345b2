/**
  Build uploads: the document backend cuts a payload into chunks that it stores under an
  identifier made from the key, the relational backend keeps it in one row.

  The identifier is modelled by the text that the source hashes, so the hash counts as injective.
 */
module Uploads {
  import opened Wrappers
  import Text

  type Bytes = seq<bv8>

  const CHUNK_BYTES: nat := 1024 * 1024

  datatype Key = Key(owner: string, namespace: string, name: string)

  /** What a get returns of an upload. */
  datatype Upload = Upload(contentType: string, metadata: map<string, string>, payload: Bytes, createdAt: int,
      updatedAt: int)

  datatype Document = Document(uploadId: string, contentType: string, metadata: map<string, string>, size: nat,
                               chunkCount: nat, createdAt: int, updatedAt: int)

  /** The arguments of one put. */
  datatype PutCall = PutCall(key: Key, payload: Bytes, contentType: string, metadata: map<string, string>, now: int)

  type ChunkTable = map<(string, nat), Bytes>

  datatype State = State(docs: map<Key, Document>, chunks: ChunkTable)

  function UploadId(key: Key): string { key.owner + "\0" + key.namespace + "\0" + key.name }

  // ----- Chunks -----

  /** An empty payload is one empty chunk. */
  function Pieces(data: Bytes): (pieces: seq<Bytes>)
    ensures pieces != []
  {
    if |data| <= CHUNK_BYTES then [data] else [data[..CHUNK_BYTES]] + Pieces(data[CHUNK_BYTES..])
  }

  function Concat(pieces: seq<Bytes>): Bytes {
    if pieces == [] then [] else Concat(pieces[..|pieces| - 1]) + pieces[|pieces| - 1]
  }

  function Without(chunks: ChunkTable, id: string): ChunkTable { map c | c in chunks && c.0 != id :: chunks[c] }

  function Inserted(chunks: ChunkTable, id: string, pieces: seq<Bytes>): ChunkTable {
    if pieces == [] then chunks
    else Inserted(chunks, id, pieces[..|pieces| - 1])[(id, |pieces| - 1) := pieces[|pieces| - 1]]
  }

  function Indices(chunks: ChunkTable, id: string): set<nat> { set c | c in chunks && c.0 == id :: c.1 }

  ghost predicate IsGreatest(i: nat, s: set<nat>) { i in s && forall j :: j in s ==> j <= i }

  ghost predicate IsLeast(i: nat, s: set<nat>) { i in s && forall j :: j in s ==> i <= j }

  lemma {:induction false} BoundsExist(s: set<nat>)
    requires s != {}
    ensures (exists i :: IsGreatest(i, s)) && exists i :: IsLeast(i, s)
  {
    var i :| i in s;
    if s == {i} {
      assert IsGreatest(i, s) && IsLeast(i, s);
    } else {
      BoundsExist(s - {i});
      assert forall j :: j in s ==> j == i || j in s - {i};
      var high :| IsGreatest(high, s - {i});
      var low :| IsLeast(low, s - {i});
      assert IsGreatest(if i < high then high else i, s) && IsLeast(if i < low then i else low, s);
    }
  }

  /** The chunks with these indices, in the order of their indices. */
  ghost function Joined(chunks: ChunkTable, id: string, indices: set<nat>): Bytes
    requires forall i :: i in indices ==> (id, i) in chunks
  {
    if indices == {} then []
    else
      BoundsExist(indices);
      var i :| IsGreatest(i, indices);
      Joined(chunks, id, indices - {i}) + chunks[(id, i)]
  }

  ghost function PayloadOf(chunks: ChunkTable, id: string): Bytes { Joined(chunks, id, Indices(chunks, id)) }

  // ----- The two backends on values -----

  function PutDocument(docs: map<Key, Document>, p: PutCall): map<Key, Document> {
    docs[p.key := Document(UploadId(p.key), p.contentType, p.metadata, |p.payload|, |Pieces(p.payload)|,
                           if p.key in docs then docs[p.key].createdAt else p.now, p.now)]
  }

  function Put(s: State, p: PutCall): State {
    State(PutDocument(s.docs, p), Inserted(Without(s.chunks, UploadId(p.key)), UploadId(p.key), Pieces(p.payload)))
  }

  /** Every document carries the identifier of its key. */
  ghost predicate Wellformed(s: State) { forall k :: k in s.docs ==> s.docs[k].uploadId == UploadId(k) }

  ghost function UploadAt(s: State, key: Key): Upload
    requires key in s.docs
  {
    var d := s.docs[key];
    Upload(d.contentType, d.metadata, PayloadOf(s.chunks, d.uploadId), d.createdAt, d.updatedAt)
  }

  /** The store as its gets show it. */
  ghost function View(s: State): map<Key, Upload> { map k | k in s.docs :: UploadAt(s, k) }

  /** The relational row that replaces or joins the others. */
  function Upserted(rows: map<Key, Upload>, p: PutCall): map<Key, Upload> {
    rows[p.key := Upload(p.contentType, p.metadata, p.payload, if p.key in rows then rows[p.key].createdAt
        else p.now, p.now)]
  }

  /** The identifier is the relational primary key: a new key with the identifier of another row
      is refused. */
  ghost predicate Clashes(rows: map<Key, Upload>, key: Key) {
    exists k :: k in rows && k != key && UploadId(k) == UploadId(key)
  }

  // ----- Chunks joined again -----

  /** As much of the payload as so many chunks hold. */
  function FirstChunks(data: Bytes, n: nat): Bytes { if n * CHUNK_BYTES <= |data| then data[..n * CHUNK_BYTES]
      else data }

  lemma FirstChunksStep(data: Bytes, n: nat)
    requires |data| > CHUNK_BYTES && n > 0
    ensures data[..CHUNK_BYTES] + FirstChunks(data[CHUNK_BYTES..], n - 1) == FirstChunks(data, n)
  {
    var rest := data[CHUNK_BYTES..];
    if (n - 1) * CHUNK_BYTES <= |rest| {
      assert data[..CHUNK_BYTES] + rest[..(n - 1) * CHUNK_BYTES] == data[..n * CHUNK_BYTES];
    } else {
      assert data[..CHUNK_BYTES] + rest == data;
    }
  }

  lemma {:induction false} PieceCount(data: Bytes)
    ensures (|Pieces(data)| - 1) * CHUNK_BYTES <= |data| <= |Pieces(data)| * CHUNK_BYTES
    ensures data != [] ==> (|Pieces(data)| - 1) * CHUNK_BYTES < |data|
    decreases |data|
  {
    if |data| > CHUNK_BYTES { PieceCount(data[CHUNK_BYTES..]); }
  }

  lemma {:induction false} PiecesJoin(data: Bytes, n: nat)
    requires n <= |Pieces(data)|
    ensures Concat(Pieces(data)[..n]) == FirstChunks(data, n)
    decreases |data|
  {
    if n == 0 {
    } else if |data| <= CHUNK_BYTES {
      assert Pieces(data)[..1] == [data] + [];
      ConcatFront(data, []);
    } else {
      var first, rest := data[..CHUNK_BYTES], data[CHUNK_BYTES..];
      PiecesJoin(rest, n - 1);
      assert Pieces(data)[..n] == [first] + Pieces(rest)[..n - 1];
      ConcatFront(first, Pieces(rest)[..n - 1]);
      FirstChunksStep(data, n);
    }
  }

  lemma {:induction false} ConcatFront(first: Bytes, pieces: seq<Bytes>)
    ensures Concat([first] + pieces) == first + Concat(pieces)
  {
    var all := [first] + pieces;
    if pieces == [] {
      assert all[..0] == [] && all[0] == first;
    } else {
      assert all[..|all| - 1] == [first] + pieces[..|pieces| - 1];
      ConcatFront(first, pieces[..|pieces| - 1]);
    }
  }

  /** Only the chunks looked at matter. */
  lemma {:induction false} JoinedFrame(a: ChunkTable, b: ChunkTable, id: string, indices: set<nat>)
    requires forall i :: i in indices ==> (id, i) in a && (id, i) in b && a[(id, i)] == b[(id, i)]
    ensures Joined(a, id, indices) == Joined(b, id, indices)
    decreases indices
  {
    if indices == {} {
    } else {
      BoundsExist(indices);
      var i :| IsGreatest(i, indices);
      JoinedFrame(a, b, id, indices - {i});
      JoinedGreatest(a, id, indices, i);
      JoinedGreatest(b, id, indices, i);
    }
  }

  lemma JoinedGreatest(chunks: ChunkTable, id: string, indices: set<nat>, i: nat)
    requires forall j :: j in indices ==> (id, j) in chunks
    requires IsGreatest(i, indices)
    ensures Joined(chunks, id, indices) == Joined(chunks, id, indices - {i}) + chunks[(id, i)]
  {
    assert forall j :: IsGreatest(j, indices) ==> j == i;
  }

  lemma {:induction false} InsertedMeaning(base: ChunkTable, id: string, pieces: seq<Bytes>)
    requires Indices(base, id) == {}
    ensures forall c: (string, nat) :: c.0 != id ==> (c in Inserted(base, id, pieces) <==> c in base)
    ensures forall c: (string, nat) :: c.0 != id && c in base ==> Inserted(base, id, pieces)[c] == base[c]
    ensures forall i: nat :: (id, i) in Inserted(base, id, pieces) <==> i < |pieces|
    ensures PayloadOf(Inserted(base, id, pieces), id) == Concat(pieces)
  {
    if pieces == [] {
      forall i: nat ensures (id, i) !in base {
        assert (id, i) in base ==> (id, i).1 in Indices(base, id);
      }
    } else {
      var n := |pieces| - 1;
      var smaller, whole := Inserted(base, id, pieces[..n]), Inserted(base, id, pieces);
      InsertedMeaning(base, id, pieces[..n]);
      assert whole == smaller[(id, n) := pieces[n]];
      IndicesOf(smaller, id, n);
      IndicesOf(whole, id, n + 1);
      assert Indices(whole, id) - {n} == Indices(smaller, id);
      JoinedGreatest(whole, id, Indices(whole, id), n);
      JoinedFrame(whole, smaller, id, Indices(smaller, id));
    }
  }

  lemma IndicesOf(chunks: ChunkTable, id: string, n: nat)
    requires forall i: nat :: (id, i) in chunks <==> i < n
    ensures forall i: nat :: i in Indices(chunks, id) <==> i < n
  {
    forall i: nat ensures i in Indices(chunks, id) <==> i < n {
      assert (id, i) in chunks ==> (id, i).1 in Indices(chunks, id);
    }
  }

  lemma WithoutMeaning(chunks: ChunkTable, id: string)
    ensures Indices(Without(chunks, id), id) == {}
  {
  }

  lemma PayloadFrame(a: ChunkTable, b: ChunkTable, id: string)
    requires forall c: (string, nat) :: c.0 == id ==> (c in a <==> c in b)
    requires forall c: (string, nat) :: c.0 == id && c in a ==> a[c] == b[c]
    ensures PayloadOf(a, id) == PayloadOf(b, id)
  {
    forall i: nat ensures i in Indices(a, id) <==> i in Indices(b, id) {
      assert (id, i) in a <==> (id, i) in b;
    }
    assert Indices(a, id) == Indices(b, id);
    JoinedFrame(a, b, id, Indices(a, id));
  }

  /** What a get reads while a put has inserted `n` of its chunks: a prefix of the new payload that
      ends where a chunk does, never a byte of the old one. */
  lemma ReadDuringPut(chunks: ChunkTable, id: string, data: Bytes, n: nat)
    requires n <= |Pieces(data)|
    ensures var read := PayloadOf(Inserted(Without(chunks, id), id, Pieces(data)[..n]), id);
            && read == FirstChunks(data, n)
            && (read == data <==> n == |Pieces(data)| || data == [])
  {
    WithoutMeaning(chunks, id);
    InsertedMeaning(Without(chunks, id), id, Pieces(data)[..n]);
    PiecesJoin(data, n);
    PieceCount(data);
  }

  // ----- One put -----

  /** A get of the key returns the payload put; another key's upload stays as it was, unless it
      has the same identifier: then it shows the new payload under its own description. */
  lemma PutMeaning(s: State, p: PutCall, k: Key)
    requires Wellformed(s)
    ensures Wellformed(Put(s, p))
    ensures k in Put(s, p).docs <==> k in s.docs || k == p.key
    ensures k == p.key ==> UploadAt(Put(s, p), k) == Upserted(View(s), p)[p.key]
    ensures k in s.docs && k != p.key ==>
              UploadAt(Put(s, p), k)
              == if UploadId(k) == UploadId(p.key) then UploadAt(s, k).(payload := p.payload) else UploadAt(s, k)
  {
    PutChunks(s.chunks, p.key, p.payload, UploadId(k));
  }

  lemma PutAnswer(s: State, p: PutCall)
    requires Wellformed(s)
    ensures Wellformed(Put(s, p)) && p.key in View(Put(s, p)) && View(Put(s, p))[p.key] == Upserted(View(s), p)[p.key]
  {
    PutMeaning(s, p, p.key);
  }

  /** The chunks of every identifier after those of one were replaced. */
  lemma PutChunks(chunks: ChunkTable, key: Key, data: Bytes, id: string)
    ensures PayloadOf(Inserted(Without(chunks, UploadId(key)), UploadId(key), Pieces(data)), id)
            == if id == UploadId(key) then data else PayloadOf(chunks, id)
  {
    var own := UploadId(key);
    WithoutMeaning(chunks, own);
    InsertedMeaning(Without(chunks, own), own, Pieces(data));
    if id == own {
      PiecesJoin(data, |Pieces(data)|);
      PieceCount(data);
      assert Pieces(data)[..|Pieces(data)|] == Pieces(data);
    } else {
      PayloadFrame(chunks, Inserted(Without(chunks, own), own, Pieces(data)), id);
    }
  }

  ghost predicate AgreeAt<K, V>(a: map<K, V>, b: map<K, V>, k: K) {
    (k in a <==> k in b) && (k in a && k in b ==> a[k] == b[k])
  }

  lemma EqualIff<K(!new), V>(a: map<K, V>, b: map<K, V>)
    ensures a == b <==> forall k :: AgreeAt(a, b, k)
  {
    if forall k :: AgreeAt(a, b, k) {
      forall k ensures k in a <==> k in b { assert AgreeAt(a, b, k); }
      forall k | k in a ensures a[k] == b[k] { assert AgreeAt(a, b, k); }
      assert a == b;
    }
  }

  ghost predicate Unharmed(s: State, p: PutCall, k: Key) {
    k in s.docs && k != p.key && UploadId(k) == UploadId(p.key) ==> UploadAt(s, k).payload == p.payload
  }

  lemma AgreeIff(s: State, p: PutCall, k: Key)
    requires Wellformed(s)
    ensures AgreeAt(View(Put(s, p)), Upserted(View(s), p), k) <==> Unharmed(s, p, k)
  {
    PutMeaning(s, p, k);
  }

  /** A put is the relational upsert exactly when no other key shares the identifier, or those
      that do already hold the same payload. */
  lemma PutIsUpsertIff(s: State, p: PutCall)
    requires Wellformed(s)
    ensures View(Put(s, p)) == Upserted(View(s), p) <==> forall k :: Unharmed(s, p, k)
  {
    EqualIff(View(Put(s, p)), Upserted(View(s), p));
    forall k ensures AgreeAt(View(Put(s, p)), Upserted(View(s), p), k) <==> Unharmed(s, p, k) {
      AgreeIff(s, p, k);
    }
    if forall k :: Unharmed(s, p, k) {
      forall k ensures AgreeAt(View(Put(s, p)), Upserted(View(s), p), k) { assert Unharmed(s, p, k); }
    } else {
      var k :| !Unharmed(s, p, k);
      assert !AgreeAt(View(Put(s, p)), Upserted(View(s), p), k);
    }
  }

  // ----- Identifiers -----

  predicate Plain(key: Key) { '\0' !in key.owner && '\0' !in key.namespace }

  lemma CutAtNul(a: string, s: string, b: string, t: string)
    requires '\0' !in a && '\0' !in b
    ensures a + "\0" + s == b + "\0" + t ==> a == b && s == t
  {
    Text.IndexIs(a, '\0', s);
    Text.IndexIs(b, '\0', t);
    var left, right := a + "\0" + s, b + "\0" + t;
    assert left[..|a|] == a && right[..|b|] == b;
    assert left[|a| + 1..] == s && right[|b| + 1..] == t;
  }

  /** Keys whose owner and namespace hold no NUL are told apart by their identifiers. */
  lemma IdIsInjective(a: Key, b: Key)
    requires Plain(a) && Plain(b)
    ensures UploadId(a) == UploadId(b) <==> a == b
  {
    var s, t := a.namespace + "\0" + a.name, b.namespace + "\0" + b.name;
    assert UploadId(a) == a.owner + "\0" + s && UploadId(b) == b.owner + "\0" + t;
    CutAtNul(a.owner, s, b.owner, t);
    CutAtNul(a.namespace, a.name, b.namespace, b.name);
  }

  /** With a NUL they may not be: a put to one key then changes what a get of the other returns. */
  lemma NulLetsKeysClash(owner: string, x: string, y: string, z: string)
    ensures var a, b := Key(owner, x + "\0" + y, z), Key(owner, x, y + "\0" + z);
            a != b && UploadId(a) == UploadId(b)
  {
    var a, b := Key(owner, x + "\0" + y, z), Key(owner, x, y + "\0" + z);
    assert |a.namespace| > |b.namespace|;
    assert UploadId(a) == UploadId(b);
  }

  // ----- Runs -----

  function Exec(s: State, puts: seq<PutCall>): State {
    if puts == [] then s else Put(Exec(s, puts[..|puts| - 1]), puts[|puts| - 1])
  }

  function ExecRows(rows: map<Key, Upload>, puts: seq<PutCall>): map<Key, Upload> {
    if puts == [] then rows else Upserted(ExecRows(rows, puts[..|puts| - 1]), puts[|puts| - 1])
  }

  ghost predicate AllPlain(s: State, puts: seq<PutCall>) {
    (forall k :: k in s.docs ==> Plain(k)) && forall i :: 0 <= i < |puts| ==> Plain(puts[i].key)
  }

  /** For such keys every run of puts leaves the store showing what the relational rows hold, and
      no put of the run is one the relational backend refuses. */
  lemma {:induction false} RunsRefineRows(s: State, puts: seq<PutCall>)
    requires Wellformed(s) && AllPlain(s, puts)
    ensures Wellformed(Exec(s, puts)) && View(Exec(s, puts)) == ExecRows(View(s), puts)
    ensures forall k :: k in Exec(s, puts).docs ==> Plain(k)
    ensures puts != [] ==> !Clashes(ExecRows(View(s), puts[..|puts| - 1]), puts[|puts| - 1].key)
  {
    if puts == [] {
    } else {
      var before, p := Exec(s, puts[..|puts| - 1]), puts[|puts| - 1];
      RunsRefineRows(s, puts[..|puts| - 1]);
      PutMeaning(before, p, p.key);
      forall k | k in before.docs && k != p.key ensures UploadId(k) != UploadId(p.key) {
        IdIsInjective(k, p.key);
      }
      PutIsUpsertIff(before, p);
    }
  }

  function LastPut(puts: seq<PutCall>, key: Key): Option<PutCall> {
    if puts == [] then None
    else if puts[|puts| - 1].key == key then Some(puts[|puts| - 1])
    else LastPut(puts[..|puts| - 1], key)
  }

  function FirstPut(puts: seq<PutCall>, key: Key): Option<PutCall> {
    if puts == [] then None
    else if FirstPut(puts[..|puts| - 1], key).Some? then FirstPut(puts[..|puts| - 1], key)
    else if puts[|puts| - 1].key == key then Some(puts[|puts| - 1])
    else None
  }

  lemma {:induction false} RowsHoldFirst(rows: map<Key, Upload>, puts: seq<PutCall>, key: Key)
    ensures key in ExecRows(rows, puts) <==> key in rows || FirstPut(puts, key).Some?
    ensures key in ExecRows(rows, puts) ==>
              ExecRows(rows, puts)[key].createdAt == if key in rows then rows[key].createdAt
                  else FirstPut(puts, key).value.now
  {
    if puts == [] {
    } else {
      RowsHoldFirst(rows, puts[..|puts| - 1], key);
    }
  }

  lemma {:induction false} RowsHoldLast(rows: map<Key, Upload>, puts: seq<PutCall>, key: Key)
    ensures key in ExecRows(rows, puts) <==> key in rows || LastPut(puts, key).Some?
    ensures match LastPut(puts, key)
            case None => key in rows ==> ExecRows(rows, puts)[key] == rows[key]
            case Some(p) => ExecRows(rows, puts)[key].payload == p.payload
                            && ExecRows(rows, puts)[key].contentType == p.contentType
                            && ExecRows(rows, puts)[key].metadata == p.metadata
                            && ExecRows(rows, puts)[key].updatedAt == p.now
  {
    if puts == [] {
    } else {
      RowsHoldLast(rows, puts[..|puts| - 1], key);
    }
  }

  /** A get after any run returns what the last put of the key stored, and what was there before
      the run if there was none. */
  lemma GetsLastPut(s: State, puts: seq<PutCall>, key: Key)
    requires Wellformed(s) && AllPlain(s, puts)
    ensures key in View(Exec(s, puts)) <==> key in s.docs || LastPut(puts, key).Some?
    ensures match LastPut(puts, key)
            case None => key in s.docs ==> View(Exec(s, puts))[key] == View(s)[key]
            case Some(p) => View(Exec(s, puts))[key].payload == p.payload
                            && View(Exec(s, puts))[key].contentType == p.contentType
                            && View(Exec(s, puts))[key].metadata == p.metadata
                            && View(Exec(s, puts))[key].updatedAt == p.now
  {
    RunsRefineRows(s, puts);
    RowsHoldLast(View(s), puts, key);
  }

  /** And it says when the key was first put. */
  lemma GetsFirstTime(s: State, puts: seq<PutCall>, key: Key)
    requires Wellformed(s) && AllPlain(s, puts) && key in View(Exec(s, puts))
    ensures key !in s.docs ==> FirstPut(puts, key).Some?
    ensures View(Exec(s, puts))[key].createdAt ==
              if key in s.docs then View(s)[key].createdAt else FirstPut(puts, key).value.now
  {
    RunsRefineRows(s, puts);
    RowsHoldFirst(View(s), puts, key);
  }

  /** All chunks are full but the last, which is not empty unless the payload is. */
  lemma {:induction false} PiecesFit(data: Bytes, i: nat)
    requires i < |Pieces(data)|
    ensures if i < |Pieces(data)| - 1 then |Pieces(data)[i]| == 1024 * 1024
            else |Pieces(data)[i]| <= 1024 * 1024 && (data != [] ==> Pieces(data)[i] != [])
    decreases |data|
  {
    if |data| > CHUNK_BYTES && i > 0 { PiecesFit(data[CHUNK_BYTES..], i - 1); }
  }

  /** The size and the number of chunks a document states are those of what is stored. */
  ghost predicate Described(s: State, k: Key)
    requires k in s.docs
  {
    && s.docs[k].size == |PayloadOf(s.chunks, s.docs[k].uploadId)|
    && forall i: nat :: (s.docs[k].uploadId, i) in s.chunks <==> i < s.docs[k].chunkCount
  }

  lemma PutKeepsDescribed(s: State, p: PutCall, k: Key)
    requires Wellformed(s) && k in Put(s, p).docs && Plain(k) && Plain(p.key) && (k in s.docs ==> Described(s, k))
    ensures Described(Put(s, p), k)
  {
    var id := UploadId(p.key);
    IdIsInjective(k, p.key);
    WithoutMeaning(s.chunks, id);
    InsertedMeaning(Without(s.chunks, id), id, Pieces(p.payload));
    PutChunks(s.chunks, p.key, p.payload, UploadId(k));
    if k != p.key {
      forall i: nat ensures (UploadId(k), i) in Put(s, p).chunks <==> (UploadId(k), i) in s.chunks {}
    }
  }

  lemma {:induction false} DocumentsDescribe(s: State, puts: seq<PutCall>, k: Key)
    requires Wellformed(s) && AllPlain(s, puts) && k in Exec(s, puts).docs && (k in s.docs ==> Described(s, k))
    ensures Described(Exec(s, puts), k)
  {
    if puts == [] {
    } else {
      var front, p := puts[..|puts| - 1], puts[|puts| - 1];
      RunsRefineRows(s, front);
      RunsRefineRows(s, puts);
      if k in Exec(s, front).docs { DocumentsDescribe(s, front, k); }
      PutKeepsDescribed(Exec(s, front), p, k);
    }
  }

  // ----- The backends -----

  lemma JoinedNext(chunks: ChunkTable, id: string, indices: set<nat>, i: nat)
    requires forall j :: j in indices ==> (id, j) in chunks && j < i
    requires (id, i) in chunks
    ensures Joined(chunks, id, indices + {i}) == Joined(chunks, id, indices) + chunks[(id, i)]
  {
    JoinedGreatest(chunks, id, indices + {i}, i);
    assert indices + {i} - {i} == indices;
  }

  /** The chunks of an identifier, the smallest index first. */
  method JoinChunks(chunks: ChunkTable, id: string) returns (payload: Bytes)
    ensures payload == PayloadOf(chunks, id)
  {
    var rest := Indices(chunks, id);
    ghost var joined: set<nat> := {};
    payload := [];
    while rest != {}
      invariant joined + rest == Indices(chunks, id)
      invariant forall i, j :: i in joined && j in rest ==> i < j
      invariant forall i :: i in joined ==> (id, i) in chunks
      invariant payload == Joined(chunks, id, joined)
      decreases rest
    {
      var i := Least(rest);
      assert i in Indices(chunks, id);
      JoinedNext(chunks, id, joined, i);
      payload := payload + chunks[(id, i)];
      joined, rest := joined + {i}, rest - {i};
    }
  }

  method Least(s: set<nat>) returns (i: nat)
    requires s != {}
    ensures IsLeast(i, s)
  {
    i :| i in s;
    var rest := s - {i};
    while rest != {}
      invariant rest <= s && i in s
      invariant forall k :: k in s ==> i <= k || k in rest
      decreases rest
    {
      var j :| j in rest;
      if j < i { i := j; }
      rest := rest - {j};
    }
  }

  class MongoUploads {
    var docs: map<Key, Document>
    var chunks: ChunkTable

    ghost function Contents(): State
      reads this
    {
      State(docs, chunks)
    }

    ghost predicate Valid()
      reads this
    {
      Wellformed(Contents())
    }

    constructor ()
      ensures Valid() && View(Contents()) == map[]
    {
      docs, chunks := map[], map[];
    }

    method PutTemplateBuildUpload(p: PutCall) returns (r: Option<Upload>)
      requires Valid()
      modifies this
      ensures Valid() && Contents() == Put(old(Contents()), p)
      ensures r == Some(Upserted(old(View(Contents())), p)[p.key])
    {
      var id := UploadId(p.key);
      var pieces := Pieces(p.payload);
      PutAnswer(Contents(), p);
      chunks := Without(chunks, id);
      var idx := 0;
      while idx < |pieces|
        invariant idx <= |pieces|
        invariant chunks == Inserted(Without(old(chunks), id), id, pieces[..idx]) && docs == old(docs)
      {
        assert pieces[..idx + 1][..idx] == pieces[..idx];
        chunks := chunks[(id, idx) := pieces[idx]];
        idx := idx + 1;
      }
      assert pieces[..idx] == pieces;
      docs := PutDocument(docs, p);
      r := GetTemplateBuildUpload(p.key);
    }

    method GetTemplateBuildUpload(key: Key) returns (r: Option<Upload>)
      requires Valid()
      ensures r == if key in View(Contents()) then Some(View(Contents())[key]) else None
    {
      if key !in docs { return None; }
      var d := docs[key];
      var id := if d.uploadId == "" then UploadId(key) else d.uploadId;
      var payload := JoinChunks(chunks, id);
      r := Some(Upload(d.contentType, d.metadata, payload, d.createdAt, d.updatedAt));
    }
  }

  class PostgresUploads {
    var rows: map<Key, Upload>

    constructor ()
      ensures rows == map[]
    {
      rows := map[];
    }

    /** None is the violated primary key. */
    method PutTemplateBuildUpload(p: PutCall) returns (r: Option<Upload>)
      modifies this
      ensures old(p.key !in rows && Clashes(rows, p.key)) ==> r == None && rows == old(rows)
      ensures !old(p.key !in rows && Clashes(rows, p.key)) ==> rows == Upserted(old(rows), p) && r == Some(rows[p.key])
    {
      if p.key !in rows && exists k | k in rows :: k != p.key && UploadId(k) == UploadId(p.key) {
        r := None;
      } else {
        rows := Upserted(rows, p);
        r := GetTemplateBuildUpload(p.key);
      }
    }

    method GetTemplateBuildUpload(key: Key) returns (r: Option<Upload>)
      ensures r == if key in rows then Some(rows[key]) else None
    {
      r := if key in rows then Some(rows[key]) else None;
    }
  }

}
