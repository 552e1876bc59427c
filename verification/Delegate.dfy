/** The delegate's key-value store: one host store shared by all origins, each with an index of its keys. */
module Delegate {
  import opened Encoding
  import opened Lists

  type Bytes = seq<int>

  type SigningKey = b: Bytes | |b| == 32 witness seq(32, _ => 0)

  // Origins and board keys appear in store keys as base58 text.
  const SEPARATOR := ":"
  const KEY_INDEX_SUFFIX := "::key_index"
  const SIGNING_PREFIX := "signing_key:"

  function OriginKey(origin: Base58, key: string): string { origin + SEPARATOR + key }

  function IndexKey(origin: Base58): string { origin + SEPARATOR + KEY_INDEX_SUFFIX }

  function SigningKeyKey(origin: Base58, board: Base58): string { SIGNING_PREFIX + origin + ":" + board }

  // A client's value: its bytes, and the keys they spell if read as an encoded key index, none if they do not decode.
  datatype Blob = Blob(bytes: Bytes, asIndex: seq<string>)

  // What the host holds under a key: a client's value or a signing key, or an encoded key index.
  datatype Stored = Raw(blob: Blob) | Index(keys: seq<string>)

  type HostStore = map<string, Stored>

  datatype Request =
    | Store(origin: Base58, key: string, value: Blob)
    | Get(origin: Base58, key: string)
    | Delete(origin: Base58, key: string)
    | ListKeys(origin: Base58)
    | StoreSigningKey(origin: Base58, board: Base58, signingKey: SigningKey)
    | GetPublicKey(origin: Base58, board: Base58)
    | Sign(origin: Base58, board: Base58, data: Bytes)

  // A public key or a signature is given by the signing key it comes from; Get hands back whatever the host holds.
  datatype Response =
    | StoreDone(key: string, size: nat)
    | Value(key: string, value: Option<Stored>)
    | DeleteDone(key: string)
    | Keys(keys: seq<string>)
    | SigningKeyDone(board: Base58)
    | PublicKey(board: Base58, ofKey: Option<SigningKey>)
    | Signature(board: Base58, signedBy: Option<SigningKey>, data: Bytes)

  // ---------- The handlers ----------

  function IndexOf(s: HostStore, key: string): seq<string> {
    if key !in s then [] else if s[key].Index? then s[key].keys else s[key].blob.asIndex
  }

  function StoredAt(s: HostStore, key: string): Option<Stored> {
    if key in s then Some(s[key]) else None
  }

  // A value of any other length is no signing key.
  function SigningKeyAt(s: HostStore, key: string): Option<SigningKey> {
    if key in s && s[key].Raw? && |s[key].blob.bytes| == 32 then Some(s[key].blob.bytes) else None
  }

  function WithoutKey(keys: seq<string>, key: string): seq<string> {
    Filter(keys, (k: string) => k != key)
  }

  function WithKey(keys: seq<string>, key: string): seq<string> {
    if key in keys then keys else keys + [key]
  }

  /** What a request does to the host store, and its answer. */
  function Handled(s: HostStore, q: Request): (HostStore, Response) {
    match q
    case Store(o, k, v) =>
      var put := s[OriginKey(o, k) := Raw(v)];
      var keys := IndexOf(put, IndexKey(o));
      (if k in keys then put else put[IndexKey(o) := Index(keys + [k])], StoreDone(k, |v.bytes|))
    case Get(o, k) => (s, Value(k, StoredAt(s, OriginKey(o, k))))
    case Delete(o, k) =>
      var cut := s - {OriginKey(o, k)};
      (cut[IndexKey(o) := Index(WithoutKey(IndexOf(cut, IndexKey(o)), k))], DeleteDone(k))
    case ListKeys(o) => (s, Keys(IndexOf(s, IndexKey(o))))
    case StoreSigningKey(o, b, sk) => (s[SigningKeyKey(o, b) := Raw(Blob(sk, []))], SigningKeyDone(b))
    case GetPublicKey(o, b) => (s, PublicKey(b, SigningKeyAt(s, SigningKeyKey(o, b))))
    case Sign(o, b, data) => (s, Signature(b, SigningKeyAt(s, SigningKeyKey(o, b)), data))
  }

  // ---------- Store keys do not collide ----------

  lemma SplitAtSeparator(a: string, b: string, x: string, y: string)
    requires ':' !in a && ':' !in b && a + ":" + x == b + ":" + y
    ensures a == b && x == y
  {
    var s := a + ":" + x;
    assert s[|a|] == ':' && s[|b|] == ':';
    assert forall i :: 0 <= i < |a| ==> s[i] == a[i] && s[i] in a;
    assert forall i :: 0 <= i < |b| ==> s[i] == b[i] && s[i] in b;
    assert |a| == |b|;
    assert a == s[..|a|] && b == s[..|b|];
    assert x == s[|a| + 1..] && y == s[|b| + 1..];
  }

  lemma NoSeparator(s: Base58)
    ensures ':' !in s && '_' !in s
  {
  }

  /** Keys of different origins, different keys, and signing keys are all apart; only the reserved suffix meets the
      index. */
  lemma KeysApart(o: Base58, k: string, p: Base58, l: string)
    ensures OriginKey(o, k) == OriginKey(p, l) <==> o == p && k == l
    ensures OriginKey(o, k) == IndexKey(p) <==> o == p && k == KEY_INDEX_SUFFIX
    ensures IndexKey(o) == IndexKey(p) <==> o == p
  {
    NoSeparator(o);
    NoSeparator(p);
    if OriginKey(o, k) == OriginKey(p, l) {
      SplitAtSeparator(o, p, k, l);
    }
    if OriginKey(o, k) == IndexKey(p) {
      SplitAtSeparator(o, p, k, KEY_INDEX_SUFFIX);
    }
    if IndexKey(o) == IndexKey(p) {
      SplitAtSeparator(o, p, KEY_INDEX_SUFFIX, KEY_INDEX_SUFFIX);
    }
  }

  lemma SigningKeysApart(o: Base58, b: Base58, p: Base58, k: string)
    ensures SigningKeyKey(o, b) != OriginKey(p, k) && SigningKeyKey(o, b) != IndexKey(p)
    ensures forall c: Base58 :: SigningKeyKey(o, b) == SigningKeyKey(p, c) ==> o == p && b == c
  {
    var prefix := "signing_key";
    NoSeparator(o);
    NoSeparator(p);
    assert prefix[7] == '_';
    assert SigningKeyKey(o, b) == prefix + ":" + (o + ":" + b);
    if SigningKeyKey(o, b) == OriginKey(p, k) {
      SplitAtSeparator(prefix, p, o + ":" + b, k);
    }
    if SigningKeyKey(o, b) == IndexKey(p) {
      SplitAtSeparator(prefix, p, o + ":" + b, KEY_INDEX_SUFFIX);
    }
    forall c: Base58 | SigningKeyKey(o, b) == SigningKeyKey(p, c) ensures o == p && b == c {
      assert SigningKeyKey(p, c) == prefix + ":" + (p + ":" + c);
      SplitAtSeparator(prefix, prefix, o + ":" + b, p + ":" + c);
      SplitAtSeparator(o, p, b, c);
    }
  }

  // ---------- Each origin its own map ----------

  // One origin's entries in the order they were first stored.
  type Box = seq<(string, Blob)>

  // What the store is meant to be: a map for each origin, and signing keys apart.
  datatype Ideal = Ideal(boxes: map<string, Box>, signing: map<(string, string), SigningKey>)

  function BoxOf(i: Ideal, origin: string): Box {
    if origin in i.boxes then i.boxes[origin] else []
  }

  function KeysOf(box: Box): (keys: seq<string>)
    ensures |keys| == |box| && forall i :: 0 <= i < |box| ==> keys[i] == box[i].0
  {
    if box == [] then [] else [box[0].0] + KeysOf(box[1..])
  }

  function Lookup(box: Box, key: string): Option<Blob> {
    if box == [] then None else if box[0].0 == key then Some(box[0].1) else Lookup(box[1..], key)
  }

  function AsStored(value: Option<Blob>): Option<Stored> {
    if value.Some? then Some(Raw(value.value)) else None
  }

  function Put(box: Box, key: string, value: Blob): Box {
    if box == [] then [(key, value)]
    else if box[0].0 == key then [(key, value)] + box[1..]
    else [box[0]] + Put(box[1..], key, value)
  }

  function Cut(box: Box, key: string): Box {
    if box == [] then [] else if box[0].0 == key then Cut(box[1..], key) else [box[0]] + Cut(box[1..], key)
  }

  function SigningOf(i: Ideal, origin: string, board: string): Option<SigningKey> {
    if (origin, board) in i.signing then Some(i.signing[(origin, board)]) else None
  }

  function IdealHandled(i: Ideal, q: Request): (Ideal, Response) {
    match q
    case Store(o, k, v) => (i.(boxes := i.boxes[o := Put(BoxOf(i, o), k, v)]), StoreDone(k, |v.bytes|))
    case Get(o, k) => (i, Value(k, AsStored(Lookup(BoxOf(i, o), k))))
    case Delete(o, k) => (i.(boxes := i.boxes[o := Cut(BoxOf(i, o), k)]), DeleteDone(k))
    case ListKeys(o) => (i, Keys(KeysOf(BoxOf(i, o))))
    case StoreSigningKey(o, b, sk) => (i.(signing := i.signing[(o, b) := sk]), SigningKeyDone(b))
    case GetPublicKey(o, b) => (i, PublicKey(b, SigningOf(i, o, b)))
    case Sign(o, b, data) => (i, Signature(b, SigningOf(i, o, b), data))
  }

  /** Requests that do not name the reserved index key. */
  predicate Proper(q: Request) {
    match q
    case Store(_, k, _) => k != KEY_INDEX_SUFFIX
    case Get(_, k) => k != KEY_INDEX_SUFFIX
    case Delete(_, k) => k != KEY_INDEX_SUFFIX
    case _ => true
  }

  ghost predicate BoxRefined(i: Ideal, s: HostStore, o: Base58) {
    && IndexOf(s, IndexKey(o)) == KeysOf(BoxOf(i, o))
    && forall k :: k != KEY_INDEX_SUFFIX ==> StoredAt(s, OriginKey(o, k)) == AsStored(Lookup(BoxOf(i, o), k))
  }

  /** The host store holds exactly the ideal's maps, indexes and signing keys. */
  ghost predicate Refines(i: Ideal, s: HostStore) {
    && (forall o: Base58 :: BoxRefined(i, s, o))
    && (forall o: Base58, b: Base58 :: SigningKeyAt(s, SigningKeyKey(o, b)) == SigningOf(i, o, b))
  }

  lemma {:induction false} PutKeys(box: Box, key: string, value: Blob)
    ensures KeysOf(Put(box, key, value)) == if key in KeysOf(box) then KeysOf(box) else KeysOf(box) + [key]
    ensures forall k :: Lookup(Put(box, key, value), k) == if k == key then Some(value) else Lookup(box, k)
  {
    if box != [] {
      PutKeys(box[1..], key, value);
      assert KeysOf(box) == [box[0].0] + KeysOf(box[1..]);
      if box[0].0 == key {
        assert ([(key, value)] + box[1..])[1..] == box[1..];
      } else {
        assert ([box[0]] + Put(box[1..], key, value))[1..] == Put(box[1..], key, value);
      }
    }
  }

  lemma {:induction false} CutKeys(box: Box, key: string)
    ensures KeysOf(Cut(box, key)) == WithoutKey(KeysOf(box), key)
    ensures forall k :: Lookup(Cut(box, key), k) == if k == key then None else Lookup(box, k)
  {
    if box != [] {
      CutKeys(box[1..], key);
      assert KeysOf(box)[1..] == KeysOf(box[1..]);
      if box[0].0 != key {
        assert ([box[0]] + Cut(box[1..], key))[1..] == Cut(box[1..], key);
      }
    }
  }

  /** Writing one origin's key or index touches nothing of another, and no signing key. */
  lemma OtherBoxesKept(i: Ideal, s: HostStore, i': Ideal, s': HostStore, o: Base58, k: string)
    requires Refines(i, s) && k != KEY_INDEX_SUFFIX
    requires forall x :: x != OriginKey(o, k) && x != IndexKey(o) ==>
                           (x in s <==> x in s') && (x in s ==> s[x] == s'[x])
    requires i'.signing == i.signing && forall p :: p != o ==> BoxOf(i', p) == BoxOf(i, p)
    requires IndexOf(s', IndexKey(o)) == KeysOf(BoxOf(i', o))
    requires StoredAt(s', OriginKey(o, k)) == AsStored(Lookup(BoxOf(i', o), k))
    requires forall l :: l != k ==> Lookup(BoxOf(i', o), l) == Lookup(BoxOf(i, o), l)
    ensures Refines(i', s')
  {
    forall p: Base58 ensures BoxRefined(i', s', p) {
      assert BoxRefined(i, s, p);
      KeysApart(p, k, o, k);
      KeysApart(o, k, p, k);
      forall l | l != KEY_INDEX_SUFFIX ensures StoredAt(s', OriginKey(p, l)) == AsStored(Lookup(BoxOf(i', p), l)) {
        KeysApart(p, l, o, k);
        KeysApart(p, l, o, l);
      }
    }
    forall p: Base58, b: Base58 ensures SigningKeyAt(s', SigningKeyKey(p, b)) == SigningOf(i', p, b) {
      SigningKeysApart(p, b, o, k);
    }
  }

  lemma StoreSimulates(i: Ideal, s: HostStore, o: Base58, k: string, v: Blob)
    requires Refines(i, s) && k != KEY_INDEX_SUFFIX
    ensures Refines(IdealHandled(i, Store(o, k, v)).0, Handled(s, Store(o, k, v)).0)
  {
    var i', s' := IdealHandled(i, Store(o, k, v)).0, Handled(s, Store(o, k, v)).0;
    assert BoxRefined(i, s, o);
    PutKeys(BoxOf(i, o), k, v);
    KeysApart(o, k, o, k);
    OtherBoxesKept(i, s, i', s', o, k);
  }

  lemma DeleteSimulates(i: Ideal, s: HostStore, o: Base58, k: string)
    requires Refines(i, s) && k != KEY_INDEX_SUFFIX
    ensures Refines(IdealHandled(i, Delete(o, k)).0, Handled(s, Delete(o, k)).0)
  {
    var i', s' := IdealHandled(i, Delete(o, k)).0, Handled(s, Delete(o, k)).0;
    assert BoxRefined(i, s, o);
    CutKeys(BoxOf(i, o), k);
    KeysApart(o, k, o, k);
    OtherBoxesKept(i, s, i', s', o, k);
  }

  lemma SigningSimulates(i: Ideal, s: HostStore, o: Base58, b: Base58, sk: SigningKey)
    requires Refines(i, s)
    ensures Refines(IdealHandled(i, StoreSigningKey(o, b, sk)).0, Handled(s, StoreSigningKey(o, b, sk)).0)
  {
    var i', s' := IdealHandled(i, StoreSigningKey(o, b, sk)).0, Handled(s, StoreSigningKey(o, b, sk)).0;
    forall p: Base58 ensures BoxRefined(i', s', p) {
      assert BoxRefined(i, s, p);
      SigningKeysApart(o, b, p, "");
      forall l | l != KEY_INDEX_SUFFIX ensures StoredAt(s', OriginKey(p, l)) == AsStored(Lookup(BoxOf(i', p), l)) {
        SigningKeysApart(o, b, p, l);
      }
    }
    forall p: Base58, c: Base58 ensures SigningKeyAt(s', SigningKeyKey(p, c)) == SigningOf(i', p, c) {
      SigningKeysApart(o, b, p, "");
    }
  }

  /** One request: same answer, and the store still holds the ideal. */
  lemma Simulates(i: Ideal, s: HostStore, q: Request)
    requires Refines(i, s) && Proper(q)
    ensures Refines(IdealHandled(i, q).0, Handled(s, q).0)
    ensures IdealHandled(i, q).1 == Handled(s, q).1
  {
    match q
    case Store(o, k, v) => StoreSimulates(i, s, o, k, v);
    case Delete(o, k) => DeleteSimulates(i, s, o, k);
    case StoreSigningKey(o, b, sk) => SigningSimulates(i, s, o, b, sk);
    case Get(o, _) => assert BoxRefined(i, s, o);
    case ListKeys(o) => assert BoxRefined(i, s, o);
    case _ =>
  }

  const NOTHING := Ideal(map[], map[])

  /** The delegate's context. `ideal` is what clients are promised; `Valid` says the host store holds it. Every handler
      keeps that and answers from it, requests on the reserved key apart. */
  class DelegateCtx {
    var secrets: HostStore
    ghost var ideal: Ideal

    ghost predicate Valid()
      reads this
    {
      Refines(ideal, secrets)
    }

    constructor ()
      ensures Valid() && ideal == NOTHING && secrets == map[]
    {
      secrets, ideal := map[], NOTHING;
    }

    method GetKeyIndex(indexKey: string) returns (keys: seq<string>)
      ensures keys == IndexOf(secrets, indexKey)
    {
      if indexKey !in secrets { return []; }
      match secrets[indexKey]
      case Index(stored) => return stored;
      case Raw(blob) => return blob.asIndex;
    }

    method HandleStore(origin: Base58, key: string, value: Blob) returns (r: Response)
      modifies this
      ensures (secrets, r) == Handled(old(secrets), Store(origin, key, value))
      ensures old(Valid()) && Proper(Store(origin, key, value)) ==>
                Valid() && (ideal, r) == IdealHandled(old(ideal), Store(origin, key, value))
    {
      ghost var q, before := Store(origin, key, value), secrets;
      secrets := secrets[OriginKey(origin, key) := Raw(value)];
      var keys := GetKeyIndex(IndexKey(origin));
      if key !in keys {
        secrets := secrets[IndexKey(origin) := Index(keys + [key])];
      }
      r := StoreDone(key, |value.bytes|);
      if Refines(ideal, before) && Proper(q) { Simulates(ideal, before, q); }
      ideal := IdealHandled(ideal, q).0;
    }

    method HandleGet(origin: Base58, key: string) returns (r: Response)
      ensures (secrets, r) == Handled(secrets, Get(origin, key))
      ensures Valid() && Proper(Get(origin, key)) ==> (ideal, r) == IdealHandled(ideal, Get(origin, key))
    {
      r := Value(key, StoredAt(secrets, OriginKey(origin, key)));
      if Valid() && Proper(Get(origin, key)) { Simulates(ideal, secrets, Get(origin, key)); }
    }

    method HandleDelete(origin: Base58, key: string) returns (r: Response)
      modifies this
      ensures (secrets, r) == Handled(old(secrets), Delete(origin, key))
      ensures old(Valid()) && Proper(Delete(origin, key)) ==>
                Valid() && (ideal, r) == IdealHandled(old(ideal), Delete(origin, key))
    {
      ghost var q, before := Delete(origin, key), secrets;
      secrets := secrets - {OriginKey(origin, key)};
      var keys := GetKeyIndex(IndexKey(origin));
      secrets := secrets[IndexKey(origin) := Index(WithoutKey(keys, key))];
      r := DeleteDone(key);
      if Refines(ideal, before) && Proper(q) { Simulates(ideal, before, q); }
      ideal := IdealHandled(ideal, q).0;
    }

    method HandleList(origin: Base58) returns (r: Response)
      ensures (secrets, r) == Handled(secrets, ListKeys(origin))
      ensures Valid() ==> (ideal, r) == IdealHandled(ideal, ListKeys(origin))
    {
      var keys := GetKeyIndex(IndexKey(origin));
      r := Keys(keys);
      if Valid() { Simulates(ideal, secrets, ListKeys(origin)); }
    }

    method HandleStoreSigningKey(origin: Base58, board: Base58, signingKey: SigningKey) returns (r: Response)
      modifies this
      ensures (secrets, r) == Handled(old(secrets), StoreSigningKey(origin, board, signingKey))
      ensures old(Valid()) ==>
                Valid() && (ideal, r) == IdealHandled(old(ideal), StoreSigningKey(origin, board, signingKey))
    {
      ghost var q, before := StoreSigningKey(origin, board, signingKey), secrets;
      secrets := secrets[SigningKeyKey(origin, board) := Raw(Blob(signingKey, []))];
      r := SigningKeyDone(board);
      if Refines(ideal, before) && Proper(q) { Simulates(ideal, before, q); }
      ideal := IdealHandled(ideal, q).0;
    }

    method HandleGetPublicKey(origin: Base58, board: Base58) returns (r: Response)
      ensures (secrets, r) == Handled(secrets, GetPublicKey(origin, board))
      ensures Valid() ==> (ideal, r) == IdealHandled(ideal, GetPublicKey(origin, board))
    {
      r := PublicKey(board, SigningKeyAt(secrets, SigningKeyKey(origin, board)));
      if Valid() { Simulates(ideal, secrets, GetPublicKey(origin, board)); }
    }

    method HandleSign(origin: Base58, board: Base58, data: Bytes) returns (r: Response)
      ensures (secrets, r) == Handled(secrets, Sign(origin, board, data))
      ensures Valid() ==> (ideal, r) == IdealHandled(ideal, Sign(origin, board, data))
    {
      r := Signature(board, SigningKeyAt(secrets, SigningKeyKey(origin, board)), data);
      if Valid() { Simulates(ideal, secrets, Sign(origin, board, data)); }
    }

    /** The dispatch of a request to its handler. */
    method HandleApplicationMessage(q: Request) returns (r: Response)
      modifies this
      ensures (secrets, r) == Handled(old(secrets), q)
      ensures old(Valid()) && Proper(q) ==> Valid() && (ideal, r) == IdealHandled(old(ideal), q)
    {
      match q
      case Store(o, k, v) => r := HandleStore(o, k, v);
      case Get(o, k) => r := HandleGet(o, k);
      case Delete(o, k) => r := HandleDelete(o, k);
      case ListKeys(o) => r := HandleList(o);
      case StoreSigningKey(o, b, sk) => r := HandleStoreSigningKey(o, b, sk);
      case GetPublicKey(o, b) => r := HandleGetPublicKey(o, b);
      case Sign(o, b, data) => r := HandleSign(o, b, data);
    }
  }

  function Run(s: HostStore, qs: seq<Request>): (HostStore, seq<Response>) {
    if qs == [] then (s, [])
    else
      var n := |qs| - 1;
      var before := Run(s, qs[..n]);
      var last := Handled(before.0, qs[n]);
      (last.0, before.1 + [last.1])
  }

  function IdealRun(i: Ideal, qs: seq<Request>): (Ideal, seq<Response>) {
    if qs == [] then (i, [])
    else
      var n := |qs| - 1;
      var before := IdealRun(i, qs[..n]);
      var last := IdealHandled(before.0, qs[n]);
      (last.0, before.1 + [last.1])
  }

  /** Over every run of proper requests from an empty store the delegate answers as if each origin had its own map. */
  lemma {:induction false} RunRefines(qs: seq<Request>)
    requires forall q :: q in qs ==> Proper(q)
    ensures Refines(IdealRun(NOTHING, qs).0, Run(map[], qs).0)
    ensures Run(map[], qs).1 == IdealRun(NOTHING, qs).1
  {
    if qs != [] {
      var n := |qs| - 1;
      assert qs[n] in qs && forall q :: q in qs[..n] ==> q in qs;
      RunRefines(qs[..n]);
      Simulates(IdealRun(NOTHING, qs[..n]).0, Run(map[], qs[..n]).0, qs[n]);
    }
  }

  // ---------- What a run leaves ----------

  /** The value of the last store of the key, unless a delete came later. */
  function LastStored(qs: seq<Request>, o: Base58, k: string): Option<Blob> {
    if qs == [] then None
    else
      var q := qs[|qs| - 1];
      if q.Store? && q.origin == o && q.key == k then Some(q.value)
      else if q.Delete? && q.origin == o && q.key == k then None
      else LastStored(qs[..|qs| - 1], o, k)
  }

  /** How many requests came before the store that made the key live. */
  function LiveSince(qs: seq<Request>, o: Base58, k: string): nat {
    if qs == [] then 0
    else
      var n := |qs| - 1;
      if qs[n].Store? && qs[n].origin == o && qs[n].key == k && LastStored(qs[..n], o, k).None? then n
      else LiveSince(qs[..n], o, k)
  }

  lemma {:induction false} LookupKeys(box: Box, key: string)
    ensures Lookup(box, key).Some? <==> key in KeysOf(box)
  {
    if box != [] {
      LookupKeys(box[1..], key);
      assert KeysOf(box) == [box[0].0] + KeysOf(box[1..]);
    }
  }

  lemma {:induction false} LiveSinceBound(qs: seq<Request>, o: Base58, k: string)
    ensures LiveSince(qs, o, k) <= |qs|
    ensures LastStored(qs, o, k).Some? ==> LiveSince(qs, o, k) < |qs|
  {
    if qs != [] {
      LiveSinceBound(qs[..|qs| - 1], o, k);
    }
  }

  /** The keys are in the order in which they became live. */
  ghost predicate InOrderOf(keys: seq<string>, qs: seq<Request>, o: Base58) {
    forall a, b :: 0 <= a < b < |keys| ==> LiveSince(qs, o, keys[a]) < LiveSince(qs, o, keys[b])
  }

  ghost predicate Means(box: Box, qs: seq<Request>, o: Base58) {
    && (forall k :: Lookup(box, k) == LastStored(qs, o, k))
    && InOrderOf(KeysOf(box), qs, o)
  }

  lemma StoreMeans(box: Box, qs: seq<Request>, o: Base58, k: string, v: Blob)
    requires qs != [] && qs[|qs| - 1] == Store(o, k, v) && Means(box, qs[..|qs| - 1], o)
    ensures Means(Put(box, k, v), qs, o)
  {
    PutKeys(box, k, v);
    forall l ensures l in KeysOf(box) <==> LastStored(qs[..|qs| - 1], o, l).Some? {
      LookupKeys(box, l);
    }
    StoredInOrder(KeysOf(box), qs, o, k);
  }

  lemma DeleteMeans(box: Box, qs: seq<Request>, o: Base58, k: string)
    requires qs != [] && qs[|qs| - 1] == Delete(o, k) && Means(box, qs[..|qs| - 1], o)
    ensures Means(Cut(box, k), qs, o)
  {
    CutKeys(box, k);
    CutInOrder(KeysOf(box), qs, o, k);
  }

  lemma OtherMeans(box: Box, qs: seq<Request>, o: Base58)
    requires qs != [] && !(qs[|qs| - 1].Store? && qs[|qs| - 1].origin == o)
    requires !(qs[|qs| - 1].Delete? && qs[|qs| - 1].origin == o) && Means(box, qs[..|qs| - 1], o)
    ensures Means(box, qs, o)
  {
    forall k ensures LiveSince(qs, o, k) == LiveSince(qs[..|qs| - 1], o, k) {
    }
  }

  lemma {:induction false} RunMeans(qs: seq<Request>, o: Base58)
    ensures Means(BoxOf(IdealRun(NOTHING, qs).0, o), qs, o)
  {
    if qs != [] {
      var n := |qs| - 1;
      var before := BoxOf(IdealRun(NOTHING, qs[..n]).0, o);
      RunMeans(qs[..n], o);
      if qs[n].Store? && qs[n].origin == o {
        StoreMeans(before, qs, o, qs[n].key, qs[n].value);
      } else if qs[n].Delete? && qs[n].origin == o {
        DeleteMeans(before, qs, o, qs[n].key);
      } else {
        OtherMeans(before, qs, o);
      }
    }
  }

  /** After every run of proper requests Get returns the last undeleted store, and List the live keys, once each, in
      the order they became live. */
  lemma RunMeaning(qs: seq<Request>, o: Base58)
    requires forall q :: q in qs ==> Proper(q)
    ensures forall k :: k != KEY_INDEX_SUFFIX ==>
      Handled(Run(map[], qs).0, Get(o, k)).1 == Value(k, AsStored(LastStored(qs, o, k)))
    ensures
      var listed := Handled(Run(map[], qs).0, ListKeys(o)).1;
      listed.Keys? && InOrderOf(listed.keys, qs, o) && forall k :: k in listed.keys <==> LastStored(qs, o, k).Some?
  {
    RunRefines(qs);
    RunMeans(qs, o);
    var box := BoxOf(IdealRun(NOTHING, qs).0, o);
    assert BoxRefined(IdealRun(NOTHING, qs).0, Run(map[], qs).0, o);
    forall k ensures k in KeysOf(box) <==> LastStored(qs, o, k).Some? {
      LookupKeys(box, k);
    }
  }

  /** The signing key last set for the origin and board. */
  function LastSigning(qs: seq<Request>, o: Base58, b: Base58): Option<SigningKey> {
    if qs == [] then None
    else
      var q := qs[|qs| - 1];
      if q.StoreSigningKey? && q.origin == o && q.board == b then Some(q.signingKey)
      else LastSigning(qs[..|qs| - 1], o, b)
  }

  lemma {:induction false} SigningMeans(qs: seq<Request>, o: Base58, b: Base58)
    ensures SigningOf(IdealRun(NOTHING, qs).0, o, b) == LastSigning(qs, o, b)
  {
    if qs != [] {
      SigningMeans(qs[..|qs| - 1], o, b);
    }
  }

  /** The answer a history of requests calls for. */
  ghost predicate Answers(qs: seq<Request>, q: Request, a: Response) {
    match q
    case Store(_, k, v) => a == StoreDone(k, |v.bytes|)
    case Get(o, k) =>
      a == Value(k, if LastStored(qs, o, k).Some? then Some(Raw(LastStored(qs, o, k).value)) else None)
    case Delete(_, k) => a == DeleteDone(k)
    case ListKeys(o) =>
      a.Keys? && InOrderOf(a.keys, qs, o) && forall k :: k in a.keys <==> LastStored(qs, o, k).Some?
    case StoreSigningKey(_, b, _) => a == SigningKeyDone(b)
    case GetPublicKey(o, b) => a == PublicKey(b, LastSigning(qs, o, b))
    case Sign(o, b, data) => a == Signature(b, LastSigning(qs, o, b), data)
  }

  /** After every run of proper requests every proper request, signing included, gets that answer. */
  lemma AnswersMeaning(qs: seq<Request>, q: Request)
    requires (forall p :: p in qs ==> Proper(p)) && Proper(q)
    ensures Answers(qs, q, Handled(Run(map[], qs).0, q).1)
  {
    if q.Get? || q.ListKeys? {
      RunMeaning(qs, q.origin);
    } else if q.GetPublicKey? || q.Sign? {
      RunRefines(qs);
      SigningMeans(qs, q.origin, q.board);
    }
  }

  /** How the keys of the store are spelled. */
  lemma KeysSpelled(o: Base58, k: string, b: Base58)
    ensures OriginKey(o, k) == o + ":" + k
    ensures IndexKey(o) == o + ":" + "::key_index" == OriginKey(o, "::key_index")
    ensures SigningKeyKey(o, b) == "signing_key:" + o + ":" + b
    ensures Proper(Get(o, k)) <==> k != "::key_index"
  {
  }

  // ---------- The reserved key ----------

  /** Whether a request leaves the promised maps in place: storing under the reserved key must spell the origin's list,
      deleting it must find nothing else in the list. */
  predicate Harmless(i: Ideal, q: Request) {
    match q
    case Store(o, k, v) => k != KEY_INDEX_SUFFIX || WithKey(v.asIndex, k) == WithKey(KeysOf(BoxOf(i, o)), k)
    case Delete(o, k) => k != KEY_INDEX_SUFFIX || WithoutKey(KeysOf(BoxOf(i, o)), k) == []
    case _ => true
  }

  /** On a store that holds the ideal any request, the reserved key included, leaves it holding the ideal exactly when
      it is harmless; and only a Get of the reserved key can be answered otherwise than promised. */
  lemma ReservedKeyExactly(i: Ideal, s: HostStore, q: Request)
    requires Refines(i, s)
    ensures Refines(IdealHandled(i, q).0, Handled(s, q).0) <==> Harmless(i, q)
    ensures (q.Get? && q.key == KEY_INDEX_SUFFIX) || IdealHandled(i, q).1 == Handled(s, q).1
  {
    if Proper(q) {
      Simulates(i, s, q);
    } else if q.Store? {
      ReservedStore(i, s, q.origin, q.value);
    } else if q.Delete? {
      ReservedDelete(i, s, q.origin);
    }
  }

  /** A value stored under the reserved key stands there afterwards, and the list is right, exactly when it spells the
      list with that key in it. */
  lemma ReservedValueExactly(i: Ideal, s: HostStore, o: Base58, v: Blob)
    requires Refines(i, s)
    ensures var q, keys := Store(o, KEY_INDEX_SUFFIX, v), KeysOf(BoxOf(i, o));
            Refines(IdealHandled(i, q).0, Handled(s, q).0)
            && Handled(Handled(s, q).0, Get(o, KEY_INDEX_SUFFIX)).1 == Value(KEY_INDEX_SUFFIX, Some(Raw(v)))
            <==> v.asIndex == WithKey(keys, KEY_INDEX_SUFFIX)
  {
    var k := KEY_INDEX_SUFFIX;
    ReservedStore(i, s, o, v);
    KeysApart(o, k, o, k);
    assert k in WithKey(KeysOf(BoxOf(i, o)), k);
  }

  /** After the reserved key is deleted the delegate lists nothing and a Get of that key is answered wrongly, whatever
      the store held. */
  lemma ReservedDeleteNeverRight(i: Ideal, s: HostStore, o: Base58)
    ensures var q := Delete(o, KEY_INDEX_SUFFIX);
            var i', s' := IdealHandled(i, q).0, Handled(s, q).0;
            && Handled(s', ListKeys(o)).1 == Keys([])
            && Handled(s', Get(o, KEY_INDEX_SUFFIX)).1 != IdealHandled(i', Get(o, KEY_INDEX_SUFFIX)).1
  {
    KeysApart(o, KEY_INDEX_SUFFIX, o, KEY_INDEX_SUFFIX);
    CutKeys(BoxOf(i, o), KEY_INDEX_SUFFIX);
  }

  /** An ordinary value stored under the reserved key of a fresh origin leaves the list right and is gone at once. */
  lemma ReservedValueLost(o: Base58, v: Blob)
    requires v.asIndex == []
    ensures var q := Store(o, KEY_INDEX_SUFFIX, v);
            && Harmless(NOTHING, q) && Refines(IdealHandled(NOTHING, q).0, Handled(map[], q).0)
            && Handled(Handled(map[], q).0, Get(o, KEY_INDEX_SUFFIX)).1
               == Value(KEY_INDEX_SUFFIX, Some(Index([KEY_INDEX_SUFFIX])))
            && IdealHandled(IdealHandled(NOTHING, q).0, Get(o, KEY_INDEX_SUFFIX)).1
               == Value(KEY_INDEX_SUFFIX, Some(Raw(v)))
  {
    var q := Store(o, KEY_INDEX_SUFFIX, v);
    ReservedKeyExactly(NOTHING, map[], q);
    ReservedStore(NOTHING, map[], o, v);
    KeysApart(o, KEY_INDEX_SUFFIX, o, KEY_INDEX_SUFFIX);
    assert WithKey([], KEY_INDEX_SUFFIX) == [KEY_INDEX_SUFFIX];
    PutKeys([], KEY_INDEX_SUFFIX, v);
  }

  /** The store and the ideal change only in origin o's list. */
  lemma OnlyListChanged(i: Ideal, s: HostStore, i': Ideal, s': HostStore, o: Base58)
    requires Refines(i, s)
    requires forall x :: x != IndexKey(o) ==> (x in s <==> x in s') && (x in s ==> s[x] == s'[x])
    requires i'.signing == i.signing && forall p :: p != o ==> BoxOf(i', p) == BoxOf(i, p)
    requires forall k :: k != KEY_INDEX_SUFFIX ==> Lookup(BoxOf(i', o), k) == Lookup(BoxOf(i, o), k)
    ensures Refines(i', s') <==> IndexOf(s', IndexKey(o)) == KeysOf(BoxOf(i', o))
  {
    if Refines(i', s') {
      assert BoxRefined(i', s', o);
    } else if IndexOf(s', IndexKey(o)) == KeysOf(BoxOf(i', o)) {
      forall p: Base58 ensures BoxRefined(i', s', p) {
        assert BoxRefined(i, s, p);
        KeysApart(p, "", o, "");
        forall k | k != KEY_INDEX_SUFFIX ensures OriginKey(p, k) != IndexKey(o) {
          KeysApart(p, k, o, "");
        }
      }
      forall p: Base58, b: Base58 ensures SigningKeyAt(s', SigningKeyKey(p, b)) == SigningOf(i', p, b) {
        SigningKeysApart(p, b, o, "");
      }
    }
  }

  lemma ReservedStore(i: Ideal, s: HostStore, o: Base58, v: Blob)
    requires Refines(i, s)
    ensures var q, k := Store(o, KEY_INDEX_SUFFIX, v), KEY_INDEX_SUFFIX;
            && (Refines(IdealHandled(i, q).0, Handled(s, q).0)
                <==> WithKey(v.asIndex, k) == WithKey(KeysOf(BoxOf(i, o)), k))
            && StoredAt(Handled(s, q).0, OriginKey(o, k))
               == Some(if k in v.asIndex then Raw(v) else Index(WithKey(v.asIndex, k)))
  {
    var k, box := KEY_INDEX_SUFFIX, BoxOf(i, o);
    var i', s' := IdealHandled(i, Store(o, k, v)).0, Handled(s, Store(o, k, v)).0;
    KeysApart(o, k, o, k);
    PutKeys(box, k, v);
    OnlyListChanged(i, s, i', s', o);
    assert IndexOf(s', IndexKey(o)) == WithKey(v.asIndex, k);
  }

  lemma ReservedDelete(i: Ideal, s: HostStore, o: Base58)
    requires Refines(i, s)
    ensures var q := Delete(o, KEY_INDEX_SUFFIX);
            Refines(IdealHandled(i, q).0, Handled(s, q).0) <==> WithoutKey(KeysOf(BoxOf(i, o)), KEY_INDEX_SUFFIX) == []
  {
    var k, box := KEY_INDEX_SUFFIX, BoxOf(i, o);
    var i', s' := IdealHandled(i, Delete(o, k)).0, Handled(s, Delete(o, k)).0;
    KeysApart(o, k, o, k);
    CutKeys(box, k);
    OnlyListChanged(i, s, i', s', o);
  }

  // ---------- Runs that may name the reserved key ----------

  /** What stands under the reserved key, if not an index, is the value last stored there. */
  ghost predicate ReservedHeld(i: Ideal, s: HostStore) {
    forall o: Base58 ::
      var held, box := StoredAt(s, IndexKey(o)), BoxOf(i, o);
      held.None? || held.value.Raw? ==> held == AsStored(Lookup(box, KEY_INDEX_SUFFIX))
  }

  /** Every request keeps that, whether or not the store still holds the ideal. */
  lemma StepKeepsReservedHeld(i: Ideal, s: HostStore, q: Request)
    requires ReservedHeld(i, s)
    ensures ReservedHeld(IdealHandled(i, q).0, Handled(s, q).0)
  {
    var i', s' := IdealHandled(i, q).0, Handled(s, q).0;
    forall p: Base58
      ensures var held, box := StoredAt(s', IndexKey(p)), BoxOf(i', p);
              held.None? || held.value.Raw? ==> held == AsStored(Lookup(box, KEY_INDEX_SUFFIX))
    {
      match q {
        case Store(o, k, v) =>
          KeysApart(o, k, p, k);
          PutKeys(BoxOf(i, o), k, v);
        case Delete(o, k) =>
          KeysApart(o, k, p, k);
          CutKeys(BoxOf(i, o), k);
        case StoreSigningKey(o, b, sk) =>
          SigningKeysApart(o, b, p, "");
        case _ =>
      }
    }
  }

  lemma {:induction false} RunKeepsReservedHeld(qs: seq<Request>)
    ensures ReservedHeld(IdealRun(NOTHING, qs).0, Run(map[], qs).0)
  {
    if qs != [] {
      var n := |qs| - 1;
      RunKeepsReservedHeld(qs[..n]);
      StepKeepsReservedHeld(IdealRun(NOTHING, qs[..n]).0, Run(map[], qs[..n]).0, qs[n]);
    }
  }

  /** The answer hands a client the delegate's own index. */
  predicate HandsBackIndex(r: Response) {
    r.Value? && r.value.Some? && r.value.value.Index?
  }

  /** After any run at all, a Get of the reserved key is answered as promised exactly when no index stands there. */
  lemma ReservedGetExactly(qs: seq<Request>, o: Base58)
    ensures var q := Get(o, KEY_INDEX_SUFFIX);
            var answer := Handled(Run(map[], qs).0, q).1;
            answer == IdealHandled(IdealRun(NOTHING, qs).0, q).1 <==> !HandsBackIndex(answer)
  {
    RunKeepsReservedHeld(qs);
    KeysApart(o, KEY_INDEX_SUFFIX, o, KEY_INDEX_SUFFIX);
  }

  ghost predicate HarmlessAt(qs: seq<Request>, n: nat)
    requires n < |qs|
  {
    Harmless(IdealRun(NOTHING, qs[..n]).0, qs[n])
  }

  ghost predicate HoldsAfter(qs: seq<Request>, n: nat)
    requires n <= |qs|
  {
    Refines(IdealRun(NOTHING, qs[..n]).0, Run(map[], qs[..n]).0)
  }

  lemma HoldsStep(qs: seq<Request>, n: nat)
    requires n < |qs| && HoldsAfter(qs, n)
    ensures HoldsAfter(qs, n + 1) <==> HarmlessAt(qs, n)
  {
    assert qs[..n + 1][..n] == qs[..n];
    ReservedKeyExactly(IdealRun(NOTHING, qs[..n]).0, Run(map[], qs[..n]).0, qs[n]);
  }

  lemma {:induction false} HarmlessHolds(qs: seq<Request>, n: nat)
    requires n <= |qs| && forall k :: 0 <= k < |qs| ==> HarmlessAt(qs, k)
    ensures HoldsAfter(qs, n)
  {
    if n > 0 {
      HarmlessHolds(qs, n - 1);
      HoldsStep(qs, n - 1);
    }
  }

  /** Over all runs, reserved key included: the store holds the promised maps after every request exactly when every
      request is harmless. */
  lemma RunHoldsExactly(qs: seq<Request>)
    ensures (forall n :: 0 <= n <= |qs| ==> HoldsAfter(qs, n)) <==> forall n :: 0 <= n < |qs| ==> HarmlessAt(qs, n)
  {
    if forall n :: 0 <= n < |qs| ==> HarmlessAt(qs, n) {
      forall n | 0 <= n <= |qs| ensures HoldsAfter(qs, n) {
        HarmlessHolds(qs, n);
      }
    }
    if forall n :: 0 <= n <= |qs| ==> HoldsAfter(qs, n) {
      forall n | 0 <= n < |qs| ensures HarmlessAt(qs, n) {
        HoldsStep(qs, n);
      }
    }
  }

  lemma {:induction false} AnswerCount(qs: seq<Request>)
    ensures |Run(map[], qs).1| == |qs| == |IdealRun(NOTHING, qs).1|
  {
    if qs != [] {
      AnswerCount(qs[..|qs| - 1]);
    }
  }

  lemma {:induction false} AnswerAt(qs: seq<Request>, n: nat)
    requires n < |qs|
    ensures |Run(map[], qs).1| == |qs| == |IdealRun(NOTHING, qs).1|
    ensures Run(map[], qs).1[n] == Handled(Run(map[], qs[..n]).0, qs[n]).1
    ensures IdealRun(NOTHING, qs).1[n] == IdealHandled(IdealRun(NOTHING, qs[..n]).0, qs[n]).1
    decreases |qs|
  {
    var m := |qs| - 1;
    AnswerCount(qs[..m]);
    if n < m {
      AnswerAt(qs[..m], n);
      assert qs[..m][..n] == qs[..n] && qs[..m][n] == qs[n];
    }
  }

  /** In such a run every answer is the promised one, unless it hands back the index. */
  lemma HarmlessRunAnswers(qs: seq<Request>, n: nat)
    requires n < |qs| && forall k :: 0 <= k < |qs| ==> HarmlessAt(qs, k)
    ensures |Run(map[], qs).1| == |qs| == |IdealRun(NOTHING, qs).1|
    ensures Run(map[], qs).1[n] == IdealRun(NOTHING, qs).1[n] <==> !HandsBackIndex(Run(map[], qs).1[n])
  {
    HarmlessHolds(qs, n);
    AnswerAt(qs, n);
    var i, s, q := IdealRun(NOTHING, qs[..n]).0, Run(map[], qs[..n]).0, qs[n];
    ReservedKeyExactly(i, s, q);
    if q.Get? && q.key == KEY_INDEX_SUFFIX {
      ReservedGetExactly(qs[..n], q.origin);
    } else {
      IdealHandsBackNoIndex(i, q);
    }
  }

  lemma IdealHandsBackNoIndex(i: Ideal, q: Request)
    ensures !HandsBackIndex(IdealHandled(i, q).1)
  {
  }

  lemma StoredInOrder(keys: seq<string>, qs: seq<Request>, o: Base58, k: string)
    requires qs != [] && qs[|qs| - 1].Store? && qs[|qs| - 1].origin == o && qs[|qs| - 1].key == k
    requires InOrderOf(keys, qs[..|qs| - 1], o) && forall l :: l in keys <==> LastStored(qs[..|qs| - 1], o, l).Some?
    ensures InOrderOf(if k in keys then keys else keys + [k], qs, o)
  {
    var n := |qs| - 1;
    forall l | l in keys ensures LiveSince(qs, o, l) == LiveSince(qs[..n], o, l) < n {
      LiveSinceBound(qs[..n], o, l);
    }
    var after := if k in keys then keys else keys + [k];
    forall a, b | 0 <= a < b < |after| ensures LiveSince(qs, o, after[a]) < LiveSince(qs, o, after[b]) {
      assert after[a] == keys[a] && keys[a] in keys;
      assert b < |keys| ==> keys[b] in keys;
    }
  }

  lemma CutInOrder(keys: seq<string>, qs: seq<Request>, o: Base58, k: string)
    requires qs != [] && qs[|qs| - 1].Delete?
    requires InOrderOf(keys, qs[..|qs| - 1], o)
    ensures InOrderOf(WithoutKey(keys, k), qs, o)
  {
    var n := |qs| - 1;
    var since := (l: string) => (LiveSince(qs[..n], o, l), 0);
    assert StrictlySorted(keys, since);
    FilterKeepsOrder(keys, (l: string) => l != k, since);
    var after := WithoutKey(keys, k);
    forall a, b | 0 <= a < b < |after| ensures LiveSince(qs, o, after[a]) < LiveSince(qs, o, after[b]) {
      assert Less(since(after[a]), since(after[b]));
    }
  }
}
