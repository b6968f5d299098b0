/** Rotating session keys, and the ciphertext format that names the key it was made with.

    AES-GCM is an ideal primitive here: two functions that are inverse to each other for every key
    and initialisation vector, as sections 7.1 and 7.2 of NIST SP 800-38D define them. */
module SessionKeys {
  import opened Bits
  import opened Bytes
  import opened Options

  const KEY_MAX_NUM: nat := 10
  const INDEX_LEN: nat := 4
  const IV_LEN: nat := 12
  const TAG_LEN: nat := 16
  const SESSION_KEY_LENGTH: nat := 32
  const OVERHEAD_LEN: nat := 28
  const ENCRYPT_OVER_HEAD_LEN: nat := 32

  type Key = seq<byte>

  datatype Entry = Entry(index: int, key: Key)

  // ------------------------------------------------------------------ rotation

  /** Appending a key and dropping the oldest one beyond the limit. */
  function Added(keys: seq<Entry>, e: Entry): seq<Entry> {
    if |keys + [e]| > KEY_MAX_NUM then (keys + [e])[1..] else keys + [e]
  }

  function AfterAdds(history: seq<Entry>): seq<Entry> {
    if history == [] then [] else Added(AfterAdds(history[..|history| - 1]), history[|history| - 1])
  }

  /** Where the kept part of a history begins. */
  function Dropped(n: nat): nat {
    if n > KEY_MAX_NUM then n - KEY_MAX_NUM else 0
  }

  /** After any history of additions the list holds the ten newest keys in the order they were added. */
  lemma {:induction false} ListIsNewestTen(history: seq<Entry>)
    ensures AfterAdds(history) == history[Dropped(|history|)..]
  {
    if history != [] {
      var n := |history| - 1;
      var before := history[..n];
      ListIsNewestTen(before);
      KeepNewest(history, before[Dropped(n)..]);
    }
  }

  lemma KeepNewest(history: seq<Entry>, kept: seq<Entry>)
    requires history != [] && kept == history[..|history| - 1][Dropped(|history| - 1)..]
    ensures Added(kept, history[|history| - 1]) == history[Dropped(|history|)..]
  {
    var n, d := |history| - 1, Dropped(|history| - 1);
    assert kept + [history[n]] == history[d..];
  }

  /** The first entry with the index, as the lookup loop finds it. */
  function Lookup(keys: seq<Entry>, index: int): Option<Key> {
    if keys == [] then None else if keys[0].index == index then Some(keys[0].key) else Lookup(keys[1..], index)
  }

  lemma {:induction false} LookupFinds(keys: seq<Entry>, index: int, k: nat)
    requires k < |keys| && keys[k].index == index && forall i :: 0 <= i < k ==> keys[i].index != index
    ensures Lookup(keys, index) == Some(keys[k].key)
  {
    if k > 0 { LookupFinds(keys[1..], index, k - 1); }
  }

  lemma {:induction false} LookupMisses(keys: seq<Entry>, index: int)
    requires forall i :: 0 <= i < |keys| ==> keys[i].index != index
    ensures Lookup(keys, index) == None
  {
    if keys != [] { LookupMisses(keys[1..], index); }
  }

  ghost predicate DistinctIndices(history: seq<Entry>) {
    forall i, j :: 0 <= i < j < |history| ==> history[i].index != history[j].index
  }

  /** The first addition from d on with that index, or the length of the history. */
  function FirstFrom(history: seq<Entry>, d: nat, index: int): (f: nat)
    requires d <= |history|
    ensures d <= f <= |history|
    decreases |history| - d
  {
    if d == |history| || history[d].index == index then d else FirstFrom(history, d + 1, index)
  }

  /** The oldest kept addition of an index. */
  function OldestKept(history: seq<Entry>, index: int): nat {
    FirstFrom(history, Dropped(|history|), index)
  }

  lemma {:induction false} LookupInTail(history: seq<Entry>, d: nat, index: int)
    requires d <= |history|
    ensures var f := FirstFrom(history, d, index);
            Lookup(history[d..], index) == if f < |history| then Some(history[f].key) else None
    decreases |history| - d
  {
    if d < |history| {
      LookupInTail(history, d + 1, index);
      assert history[d..][1..] == history[d + 1..];
    }
  }

  /** For any history and any index, reused or not, the lookup gives the oldest kept key of that index. */
  lemma LookupIsOldestKept(history: seq<Entry>, index: int)
    ensures var f := OldestKept(history, index);
            Lookup(AfterAdds(history), index) == if f < |history| then Some(history[f].key) else None
  {
    ListIsNewestTen(history);
    LookupInTail(history, Dropped(|history|), index);
  }

  lemma {:induction false} FirstFromIs(history: seq<Entry>, d: nat, index: int, j: nat)
    requires d <= j <= |history| && (j < |history| ==> history[j].index == index)
    requires forall i :: d <= i < j ==> history[i].index != index
    ensures FirstFrom(history, d, index) == j
    decreases j - d
  {
    if d < j { FirstFromIs(history, d + 1, index, j); }
  }

  /** The key of addition j is found under its index if and only if the oldest kept addition of that
      index carries the same key. */
  lemma FoundExactly(history: seq<Entry>, j: nat)
    requires j < |history|
    ensures var f := OldestKept(history, history[j].index);
            Lookup(AfterAdds(history), history[j].index) == Some(history[j].key) <==>
              f < |history| && history[f].key == history[j].key
  {
    LookupIsOldestKept(history, history[j].index);
  }

  /** With distinct indices a key can be looked up exactly as long as at most nine keys were added after it. */
  lemma LookupUntilTenLater(history: seq<Entry>, j: nat)
    requires DistinctIndices(history) && j < |history|
    ensures Lookup(AfterAdds(history), history[j].index) == if |history| - 1 - j <= 9 then Some(history[j].key)
        else None
    ensures OldestKept(history, history[j].index) == if |history| - 1 - j <= 9 then j else |history|
  {
    LookupIsOldestKept(history, history[j].index);
    FirstFromIs(history, Dropped(|history|), history[j].index, if |history| - 1 - j <= 9 then j else |history|);
  }

  /** So with a reused index the newest key is not the one that is found. */
  lemma ReusedIndexFindsOldKey(index: int, first: Key, second: Key)
    ensures Lookup(AfterAdds([Entry(index, first), Entry(index, second)]), index) == Some(first)
  {
    var history := [Entry(index, first), Entry(index, second)];
    LookupIsOldestKept(history, index);
  }

  // ------------------------------------------------------------------ the cipher and the frame

  datatype Gcm = Gcm(encrypt: (Key, seq<byte>, seq<byte>) -> (seq<byte>, seq<byte>),
                     decrypt: (Key, seq<byte>, seq<byte>, seq<byte>) -> Option<seq<byte>>)

  predicate KeySizeOk(key: Key) {
    |key| == 16 || |key| == 24 || |key| == 32
  }

  /** Ciphertext as long as the plaintext, a 16-byte tag, and decryption undoes encryption. */
  ghost predicate Ideal(g: Gcm) {
    forall key: Key, iv: seq<byte>, plain: seq<byte> {:trigger g.encrypt(key, iv, plain)} ::
      var (text, tag) := g.encrypt(key, iv, plain);
      |text| == |plain| && |tag| == TAG_LEN && g.decrypt(key, iv, text, tag) == Some(plain)
  }

  /** Such a cipher exists, so nothing below is empty. */
  lemma SomeCipherIsIdeal()
    ensures exists g: Gcm :: Ideal(g)
  {
    var g := Gcm((key, iv, plain) => (plain, ToBytes(0, TAG_LEN)), (key, iv, text, tag) => Some(text));
    assert Ideal(g);
  }

  /** The initialisation vector: random bytes behind the key index as it lies in the sender's memory. */
  function Iv(little: bool, index: int, random: seq<byte>): (iv: seq<byte>)
    requires |random| == IV_LEN
    ensures |iv| == IV_LEN
  {
    Stored(little, U32(index), 4) + random[4..]
  }

  /** The wire format: key index, initialisation vector, ciphertext, tag. */
  function Frame(index: int, iv: seq<byte>, text: seq<byte>, tag: seq<byte>): seq<byte> {
    ToBytes(U32(index), 4) + iv + text + tag
  }

  function Encrypted(g: Gcm, little: bool, e: Entry, random: seq<byte>, plain: seq<byte>): seq<byte>
    requires |random| == IV_LEN
  {
    var iv := Iv(little, e.index, random);
    var (text, tag) := g.encrypt(e.key, iv, plain);
    Frame(e.index, iv, text, tag)
  }

  /** Encryption succeeds for a nonempty message whose frame can be allocated, under a usable latest key. */
  function Encrypt(g: Gcm, little: bool, keys: seq<Entry>, random: seq<byte>, plain: seq<byte>): Option<seq<byte>>
    requires |random| == IV_LEN
  {
    if plain == [] || keys == [] || !KeySizeOk(keys[|keys| - 1].key) ||
      |plain| + ENCRYPT_OVER_HEAD_LEN > MAX_MALLOC_SIZE then None
    else Some(Encrypted(g, little, keys[|keys| - 1], random, plain))
  }

  function IndexOf(little: bool, frame: seq<byte>): int
    requires |frame| >= INDEX_LEN
  {
    ToSigned(Convert(little, Loaded(little, frame[..INDEX_LEN]), 4), TWO32)
  }

  function Opened(g: Gcm, key: Key, frame: seq<byte>): Option<seq<byte>>
    requires |frame| > ENCRYPT_OVER_HEAD_LEN
  {
    var body := frame[INDEX_LEN..];
    var n := |body| - OVERHEAD_LEN;
    if n >= TWO31 then None
    else g.decrypt(key, body[..IV_LEN], body[IV_LEN..IV_LEN + n], body[IV_LEN + n..])
  }

  function Decrypt(g: Gcm, little: bool, keys: seq<Entry>, frame: seq<byte>): Option<seq<byte>> {
    if |frame| <= ENCRYPT_OVER_HEAD_LEN || |frame| - ENCRYPT_OVER_HEAD_LEN + 1 > MAX_MALLOC_SIZE then None
    else
      match Lookup(keys, IndexOf(little, frame))
      case None => None
      case Some(key) => if KeySizeOk(key) then Opened(g, key, frame) else None
  }

  /** The frame is exactly 32 bytes longer than the message. */
  lemma FrameLength(g: Gcm, little: bool, e: Entry, random: seq<byte>, plain: seq<byte>)
    requires Ideal(g) && |random| == IV_LEN
    ensures |Encrypted(g, little, e, random, plain)| == |plain| + ENCRYPT_OVER_HEAD_LEN
  {
    var iv := Iv(little, e.index, random);
    var (text, tag) := g.encrypt(e.key, iv, plain);
  }

  /** The index travels in little-endian order and is recovered on any host. */
  lemma IndexSurvives(little: bool, index: int, rest: seq<byte>)
    requires FitsSigned(index, TWO32)
    ensures IndexOf(little, ToBytes(U32(index), 4) + rest) == index
  {
    var frame := ToBytes(U32(index), 4) + rest;
    assert frame[..INDEX_LEN] == ToBytes(U32(index), 4);
    WordSizes();
    ConvertBack(little, U32(index), 4);
    SignedSurvives(index, TWO32);
  }

  lemma FrameParts(index: int, iv: seq<byte>, text: seq<byte>, tag: seq<byte>)
    requires |iv| == IV_LEN && |tag| == TAG_LEN
    ensures var body := Frame(index, iv, text, tag)[INDEX_LEN..];
            && |body| - OVERHEAD_LEN == |text| && body[..IV_LEN] == iv
            && body[IV_LEN..IV_LEN + |text|] == text && body[IV_LEN + |text|..] == tag
  {
    assert Frame(index, iv, text, tag)[INDEX_LEN..] == iv + text + tag;
  }

  /** Opening undoes the frame and the cipher. */
  lemma OpensFrame(g: Gcm, e: Entry, iv: seq<byte>, plain: seq<byte>, frame: seq<byte>)
    requires Ideal(g) && |iv| == IV_LEN && plain != [] && |plain| < TWO31
    requires var (text, tag) := g.encrypt(e.key, iv, plain); frame == Frame(e.index, iv, text, tag)
    ensures |frame| > ENCRYPT_OVER_HEAD_LEN && Opened(g, e.key, frame) == Some(plain)
  {
    var (text, tag) := g.encrypt(e.key, iv, plain);
    FrameParts(e.index, iv, text, tag);
  }

  lemma FrameIndex(little: bool, index: int, iv: seq<byte>, text: seq<byte>, tag: seq<byte>)
    requires FitsSigned(index, TWO32)
    ensures IndexOf(little, Frame(index, iv, text, tag)) == index
  {
    assert Frame(index, iv, text, tag) == ToBytes(U32(index), 4) + (iv + text + tag);
    IndexSurvives(little, index, iv + text + tag);
  }

  /** A receiver that finds the sender's key under its index opens the frame. */
  lemma OpensWithKey(g: Gcm, sender: bool, receiver: bool, e: Entry, keys: seq<Entry>, random: seq<byte>,
                     plain: seq<byte>)
    requires Ideal(g) && FitsSigned(e.index, TWO32) && |random| == IV_LEN && plain != [] &&
        |plain| + 1 <= MAX_MALLOC_SIZE
    requires KeySizeOk(e.key) && Lookup(keys, e.index) == Some(e.key)
    ensures Decrypt(g, receiver, keys, Encrypted(g, sender, e, random, plain)) == Some(plain)
  {
    var iv := Iv(sender, e.index, random);
    var (text, tag) := g.encrypt(e.key, iv, plain);
    OpensFrame(g, e, iv, plain, Frame(e.index, iv, text, tag));
    FrameIndex(receiver, e.index, iv, text, tag);
  }

  /** A receiver that finds no key under the index refuses the frame. */
  lemma RefusedWithoutKey(g: Gcm, sender: bool, receiver: bool, e: Entry, keys: seq<Entry>, random: seq<byte>,
                          plain: seq<byte>)
    requires FitsSigned(e.index, TWO32) && |random| == IV_LEN && Lookup(keys, e.index) == None
    ensures Decrypt(g, receiver, keys, Encrypted(g, sender, e, random, plain)) == None
  {
    var iv := Iv(sender, e.index, random);
    var (text, tag) := g.encrypt(e.key, iv, plain);
    FrameIndex(receiver, e.index, iv, text, tag);
  }

  /** What was encrypted under the sender's latest key is 32 bytes longer than the message. For any
      history of the receiver and any byte orders of the two hosts, it decrypts to the same bytes when
      the oldest kept key of its index is the sender's, and is refused when no kept key has the index. */
  lemma SurvivesHistory(g: Gcm, sender: bool, receiver: bool, sent: seq<Entry>, received: seq<Entry>,
                        random: seq<byte>, plain: seq<byte>)
    requires Ideal(g) && |random| == IV_LEN && sent != [] && FitsSigned(sent[|sent| - 1].index, TWO32)
    ensures var e := sent[|sent| - 1];
            var f := OldestKept(received, e.index);
            match Encrypt(g, sender, AfterAdds(sent), random, plain)
            case Some(frame) =>
              && |frame| == |plain| + ENCRYPT_OVER_HEAD_LEN
              && (f < |received| && received[f].key == e.key ==>
                  Decrypt(g, receiver, AfterAdds(received), frame) == Some(plain))
              && (f == |received| ==> Decrypt(g, receiver, AfterAdds(received), frame) == None)
            case None => plain == [] || !KeySizeOk(e.key) || |plain| + ENCRYPT_OVER_HEAD_LEN > MAX_MALLOC_SIZE
  {
    ListIsNewestTen(sent);
    var keys, e := AfterAdds(sent), sent[|sent| - 1];
    assert keys != [] && keys[|keys| - 1] == e;
    LookupIsOldestKept(received, e.index);
    var f := OldestKept(received, e.index);
    if Encrypt(g, sender, keys, random, plain).Some? {
      FrameLength(g, sender, e, random, plain);
      if f == |received| {
        RefusedWithoutKey(g, sender, receiver, e, AfterAdds(received), random, plain);
      } else if received[f].key == e.key {
        OpensWithKey(g, sender, receiver, e, AfterAdds(received), random, plain);
      }
    }
  }

  /** With distinct indices, a receiver that added the key decrypts the frame exactly as long as it
      added at most nine keys later. */
  lemma SurvivesRotation(g: Gcm, sender: bool, receiver: bool, sent: seq<Entry>, received: seq<Entry>, j: nat,
                         random: seq<byte>, plain: seq<byte>)
    requires Ideal(g) && |random| == IV_LEN
    requires sent != [] && FitsSigned(sent[|sent| - 1].index, TWO32)
    requires DistinctIndices(received) && j < |received| && received[j] == sent[|sent| - 1]
    ensures match Encrypt(g, sender, AfterAdds(sent), random, plain)
            case Some(frame) =>
              && |frame| == |plain| + ENCRYPT_OVER_HEAD_LEN
              && Decrypt(g, receiver, AfterAdds(received), frame) == if |received| - 1 - j <= 9 then Some(plain)
                  else None
            case None => plain == [] || !KeySizeOk(received[j].key) || |plain| + ENCRYPT_OVER_HEAD_LEN > MAX_MALLOC_SIZE
  {
    LookupUntilTenLater(received, j);
    SurvivesHistory(g, sender, receiver, sent, received, random, plain);
  }

  /** A frame, piece by piece: the key index in little-endian order, a vector of the key index as it
      lies in the sender's memory and eight random bytes, and what the cipher makes of the message
      under that vector. */
  ghost predicate SealedUnder(g: Gcm, little: bool, e: Entry, random: seq<byte>, plain: seq<byte>, frame: seq<byte>) {
    && |random| == 12 && |frame| == |plain| + 32
    && frame[..4] == ToBytes(U32(e.index), 4)
    && frame[4..8] == Stored(little, U32(e.index), 4) && frame[8..16] == random[4..12]
    && g.encrypt(e.key, frame[4..16], plain) == (frame[16..16 + |plain|], frame[16 + |plain|..])
  }

  lemma VectorParts(little: bool, index: int, random: seq<byte>)
    requires |random| == 12
    ensures Iv(little, index, random)[..4] == Stored(little, U32(index), 4)
    ensures Iv(little, index, random)[4..12] == random[4..12]
  {
  }

  lemma EncryptedIsSealed(g: Gcm, little: bool, e: Entry, random: seq<byte>, plain: seq<byte>)
    requires Ideal(g) && |random| == 12
    ensures SealedUnder(g, little, e, random, plain, Encrypted(g, little, e, random, plain))
  {
    var iv := Iv(little, e.index, random);
    var (text, tag) := g.encrypt(e.key, iv, plain);
    var frame := Frame(e.index, iv, text, tag);
    FrameParts(e.index, iv, text, tag);
    VectorParts(little, e.index, random);
    assert frame[..4] == ToBytes(U32(e.index), 4);
    var body := frame[4..];
    assert frame[4..16] == body[..12] && frame[16..16 + |text|] == body[12..12 + |text|];
    assert frame[16 + |text|..] == body[12 + |text|..];
    assert frame[4..8] == iv[..4] && frame[8..16] == iv[4..12];
  }

  /** No vector is used twice while the random bytes differ, and none under two different indices. */
  lemma VectorsDiffer(g: Gcm, little: bool, e1: Entry, e2: Entry, random1: seq<byte>, random2: seq<byte>,
                      plain1: seq<byte>, plain2: seq<byte>, frame1: seq<byte>, frame2: seq<byte>)
    requires SealedUnder(g, little, e1, random1, plain1, frame1) && SealedUnder(g, little, e2, random2, plain2, frame2)
    ensures frame1[4..16] == frame2[4..16] <==> U32(e1.index) == U32(e2.index) && random1[4..12] == random2[4..12]
  {
    WordSizes();
    ValueSurvives(U32(e1.index), 4);
    ValueSurvives(U32(e2.index), 4);
    ReverseTwice(ToBytes(U32(e1.index), 4));
    ReverseTwice(ToBytes(U32(e2.index), 4));
    assert frame1[4..16] == frame1[4..8] + frame1[8..16] && frame2[4..16] == frame2[4..8] + frame2[8..16];
    assert frame1[4..16][..4] == frame1[4..8] && frame2[4..16][..4] == frame2[4..8];
    assert frame1[4..16][4..] == frame1[8..16] && frame2[4..16][4..] == frame2[8..16];
  }

  /** Position i holds the first key of that index. */
  ghost predicate FirstWith(keys: seq<Entry>, index: int, i: nat) {
    i < |keys| && keys[i].index == index && forall k :: 0 <= k < i ==> keys[k].index != index
  }

  /** A received frame of a size that can be handled is opened with the first kept key whose index is
      the signed little-endian value of its first four bytes, by the cipher on the following twelve
      bytes as vector, the last sixteen as tag and the bytes between; any other is refused. */
  lemma DecryptExactly(g: Gcm, little: bool, keys: seq<Entry>, frame: seq<byte>, i: nat)
    ensures |frame| <= 32 || |frame| - 31 > 0x2000_0000 ==> Decrypt(g, little, keys, frame) == None
    ensures |frame| > 32 && |frame| - 31 <= 0x2000_0000 ==>
              var index, n := ToSigned(FromBytes(frame[..4]), TWO32), |frame|;
              && (FirstWith(keys, index, i) ==>
                    Decrypt(g, little, keys, frame) ==
                    if |keys[i].key| == 16 || |keys[i].key| == 24 || |keys[i].key| == 32 then
                      g.decrypt(keys[i].key, frame[4..16], frame[16..n - 16], frame[n - 16..])
                    else None)
              && ((forall k :: 0 <= k < |keys| ==> keys[k].index != index) ==> Decrypt(g, little, keys, frame) == None)
  {
    if |frame| > 32 && |frame| - 31 <= 0x2000_0000 {
      var index, n := ToSigned(FromBytes(frame[..4]), TWO32), |frame|;
      ReadIsLittleEndian(little, frame[..4]);
      if FirstWith(keys, index, i) {
        LookupFinds(keys, index, i);
        assert frame[4..][..12] == frame[4..16] && frame[4..][12..n - 20] == frame[16..n - 16];
        assert frame[4..][n - 20..] == frame[n - 16..];
      } else if forall k :: 0 <= k < |keys| ==> keys[k].index != index {
        LookupMisses(keys, index);
      }
    }
  }

  // ------------------------------------------------------------------ the key list object

  /** No frame, a frame, or a write past the end of the buffer that was allocated for it. */
  datatype Sealing = Failed | Sealed(frame: seq<byte>) | Overrun

  datatype Writing = Done | NotDone | PastEnd

  function SealingOf(frame: Option<seq<byte>>): Sealing {
    match frame
    case None => Failed
    case Some(bytes) => Sealed(bytes)
  }

  datatype Item = Item(entry: Entry, lastUseTime: nat)

  function Entries(items: seq<Item>): (s: seq<Entry>)
    ensures |s| == |items| && forall i :: 0 <= i < |s| ==> s[i] == items[i].entry
  {
    seq(|items|, i requires 0 <= i < |items| => items[i].entry)
  }

  lemma Sealable(g: Gcm, little: bool, keys: seq<Entry>, random: seq<byte>, plain: seq<byte>)
    requires Ideal(g) && |random| == 12
    ensures match Encrypt(g, little, keys, random, plain)
            case Some(frame) => keys != [] && SealedUnder(g, little, keys[|keys| - 1], random, plain, frame)
            case None => true
  {
    if keys != [] { EncryptedIsSealed(g, little, keys[|keys| - 1], random, plain); }
  }

  class SessionKeyList {
    var items: seq<Item>

    constructor ()
      ensures items == []
    {
      items := [];
    }

    ghost function Keys(): seq<Entry>
      reads this
    {
      Entries(items)
    }

    /** Removal of the oldest item when there are more than the limit. */
    method RemoveOldKey()
      modifies this
      ensures items == if |old(items)| > KEY_MAX_NUM then old(items)[1..] else old(items)
    {
      var num := 0;
      while num < |items|
        invariant num <= |items|
      {
        num := num + 1;
      }
      if num <= KEY_MAX_NUM {
        return;
      }
      items := items[1..];
    }

    method AddSessionKey(index: int, key: Key, now: nat)
      modifies this
      ensures Keys() == Added(old(Keys()), Entry(index, key))
      ensures |items| > 0 && items[|items| - 1].lastUseTime == now
    {
      items := items + [Item(Entry(index, key), now)];
      assert Entries(items) == old(Keys()) + [Entry(index, key)];
      RemoveOldKey();
    }

    /** The newest key; its time of last use changes, the keys and their order do not. */
    method GetLatestSessionKey(now: nat) returns (r: Option<Entry>)
      modifies this
      ensures Keys() == old(Keys())
      ensures r == if old(Keys()) == [] then None else Some(old(Keys())[|old(Keys())| - 1])
      ensures forall i :: 0 <= i < |items| - 1 ==> items[i] == old(items)[i]
      ensures items != [] ==> items[|items| - 1].lastUseTime == now
    {
      if items == [] {
        return None;
      }
      var n := |items| - 1;
      items := items[n := items[n].(lastUseTime := now)];
      return Some(items[n].entry);
    }

    /** The first key with that index in the list. */
    method GetSessionKeyByIndex(index: int, now: nat) returns (r: Option<Key>)
      modifies this
      ensures Keys() == old(Keys()) && r == Lookup(old(Keys()), index)
      ensures forall i :: 0 <= i < |items| ==>
                items[i].lastUseTime == if FirstWith(old(Keys()), index, i) then now else old(items)[i].lastUseTime
    {
      var i := 0;
      while i < |items|
        invariant i <= |items| && items == old(items)
        invariant forall k :: 0 <= k < i ==> items[k].entry.index != index
      {
        if items[i].entry.index == index {
          LookupFinds(Keys(), index, i);
          items := items[i := items[i].(lastUseTime := now)];
          return Some(items[i].entry.key);
        }
        i := i + 1;
      }
      LookupMisses(Keys(), index);
      return None;
    }

    /** Encryption into a buffer: index, then vector, ciphertext and tag from the cipher. The sum of
        length and overhead is a 32-bit one, so a message within 32 bytes of 2^32 gets a buffer of
        less than 32 bytes. */
    method EncryptInner(g: Gcm, little: bool, inData: seq<byte>, random: seq<byte>, now: nat) returns (r: Sealing)
      requires Ideal(g) && |random| == IV_LEN && |inData| < TWO32
      modifies this
      ensures Keys() == old(Keys())
      ensures r.Overrun? <==> old(Keys()) != [] && RunsOver(|inData|, old(Keys())[|old(Keys())| - 1].key)
      ensures !r.Overrun? ==> r == SealingOf(Encrypt(g, little, old(Keys()), random, inData))
      ensures r.Overrun? <==>
                && old(Keys()) != [] && |inData| + 32 >= TWO32
                && var key := old(Keys())[|old(Keys())| - 1].key;
                   |inData| + 32 < TWO32 + 4 || |key| == 16 || |key| == 24 || |key| == 32
      ensures r.Sealed? <==>
                && inData != [] && |inData| + 32 <= 0x2000_0000 && old(Keys()) != []
                && var key := old(Keys())[|old(Keys())| - 1].key; |key| == 16 || |key| == 24 || |key| == 32
      ensures r.Sealed? ==>
                var e := old(Keys())[|old(Keys())| - 1];
                && |r.frame| == |inData| + 32 && r.frame[..4] == ToBytes(U32(e.index), 4)
                && r.frame[4..8] == Stored(little, U32(e.index), 4) && r.frame[8..16] == random[4..12]
                && SealedUnder(g, little, e, random, inData, r.frame)
    {
      Sealable(g, little, Keys(), random, inData);
      var encDataLen := BufferLen(|inData|);
      BufferExactly(|inData|);
      if inData == [] || encDataLen > MAX_MALLOC_SIZE {
        return Failed;
      }
      var outData := new byte[encDataLen](i => 0);
      var latest := GetLatestSessionKey(now);
      if latest.None? {
        return Failed;
      }
      var ret := EncryptData(g, little, latest.value, inData, random, outData);
      match ret {
        case Done => return Sealed(outData[..]);
        case NotDone => return Failed;
        case PastEnd => return Overrun;
      }
    }

    /** Decryption with the key that the frame names. */
    method DecryptInner(g: Gcm, little: bool, inData: seq<byte>, now: nat) returns (r: Option<seq<byte>>)
      requires |inData| < TWO32
      modifies this
      ensures Keys() == old(Keys()) && r == Decrypt(g, little, old(Keys()), inData)
    {
      if |inData| <= ENCRYPT_OVER_HEAD_LEN || |inData| - ENCRYPT_OVER_HEAD_LEN + 1 > MAX_MALLOC_SIZE {
        return None;
      }
      WordSizes();
      var wireIndex := ConvertOrder(little, Loaded(little, inData[..INDEX_LEN]), 4);
      var key := GetSessionKeyByIndex(ToSigned(wireIndex, TWO32), now);
      if key.None? {
        return None;
      }
      if |key.value| > SESSION_KEY_LENGTH {
        return None;
      }
      r := AesGcmDecrypt(g, key.value, inData[INDEX_LEN..]);
    }
  }

  /** The buffer length that is computed for a message of n bytes. */
  function BufferLen(n: nat): nat {
    U32(n + ENCRYPT_OVER_HEAD_LEN)
  }

  /** The buffer holds the frame unless the message is within 32 bytes of 2^32; the longest message
      gets 31 bytes. */
  lemma BufferExactly(n: nat)
    requires n < TWO32
    ensures BufferLen(n) == n + ENCRYPT_OVER_HEAD_LEN <==> n + ENCRYPT_OVER_HEAD_LEN < TWO32
    ensures n + ENCRYPT_OVER_HEAD_LEN >= TWO32 ==>
        BufferLen(n) == n + ENCRYPT_OVER_HEAD_LEN - TWO32 < ENCRYPT_OVER_HEAD_LEN
    ensures BufferLen(TWO32 - 1) == 31
  {
    SmallWord(n + ENCRYPT_OVER_HEAD_LEN);
    SmallWord(n + ENCRYPT_OVER_HEAD_LEN - TWO32);
  }

  /** Whether a write passes the end of the buffer: the key index if there is not even room for it,
      otherwise the ciphertext, if the key is one the cipher accepts. */
  predicate RunsOver(n: nat, key: Key) {
    n + ENCRYPT_OVER_HEAD_LEN >= TWO32 && (BufferLen(n) < INDEX_LEN || KeySizeOk(key))
  }

  method WriteIndex(little: bool, index: int, outData: array<byte>)
    requires outData.Length >= INDEX_LEN
    modifies outData
    ensures outData[..INDEX_LEN] == ToBytes(U32(index), 4)
  {
    WordSizes();
    var wireIndex := ConvertOrder(little, U32(index), 4);
    ConvertedIsLittleEndian(little, U32(index), 4);
    Copy(outData, 0, Stored(little, wireIndex, 4));
    assert outData[..INDEX_LEN] == outData[..][..INDEX_LEN];
  }

  /** The key index in front, then the cipher's part. */
  method EncryptData(g: Gcm, little: bool, e: Entry, inData: seq<byte>, random: seq<byte>, outData: array<byte>)
    returns (r: Writing)
    requires Ideal(g) && |random| == IV_LEN && inData != [] && |inData| < TWO32 && outData.Length == BufferLen(|inData|)
    modifies outData
    ensures r.PastEnd? <==> RunsOver(|inData|, e.key)
    ensures r.Done? <==> |inData| + ENCRYPT_OVER_HEAD_LEN < TWO32 && KeySizeOk(e.key) && |inData| + OVERHEAD_LEN < TWO31
    ensures r.Done? ==> outData[..] == Encrypted(g, little, e, random, inData)
  {
    BufferExactly(|inData|);
    if outData.Length < INDEX_LEN {
      return PastEnd;
    }
    WriteIndex(little, e.index, outData);
    if |e.key| > SESSION_KEY_LENGTH {
      return NotDone;
    }
    r := AesGcmEncrypt(g, e.key, Iv(little, e.index, random), inData, outData);
  }

  /** The three copies of the cipher, put together. */
  lemma Assembled(m0: seq<byte>, m1: seq<byte>, m2: seq<byte>, m3: seq<byte>, iv: seq<byte>, text: seq<byte>,
                  tag: seq<byte>)
    requires |iv| == IV_LEN && |tag| == TAG_LEN && |m0| == |text| + ENCRYPT_OVER_HEAD_LEN
    requires m1 == m0[..16] + text + m0[16 + |text|..]
    requires m2 == m1[..4] + iv + m1[16..]
    requires m3 == m2[..16 + |text|] + tag + m2[32 + |text|..]
    ensures m3 == m0[..4] + iv + text + tag
  {
    assert m2 == m0[..4] + iv + text + m0[16 + |text|..];
    assert m2[..16 + |text|] == m0[..4] + iv + text;
  }

  /** The cipher writes behind the index, piece by piece, after it has accepted the key; the length
      comes back as a signed number, which counts as failure when it is not positive. */
  method AesGcmEncrypt(g: Gcm, key: Key, iv: seq<byte>, plain: seq<byte>, out: array<byte>) returns (r: Writing)
    requires Ideal(g) && |iv| == IV_LEN && plain != [] && |plain| < TWO32
    requires out.Length == BufferLen(|plain|) >= INDEX_LEN
    modifies out
    ensures r.PastEnd? <==> KeySizeOk(key) && |plain| + ENCRYPT_OVER_HEAD_LEN >= TWO32
    ensures r.Done? <==> KeySizeOk(key) && |plain| + ENCRYPT_OVER_HEAD_LEN < TWO32 && |plain| + OVERHEAD_LEN < TWO31
    ensures r.Done? ==> var (text, tag) := g.encrypt(key, iv, plain); out[..] == old(out[..INDEX_LEN]) + iv + text + tag
  {
    BufferExactly(|plain|);
    if !KeySizeOk(key) {
      return NotDone;
    }
    var (text, tag) := g.encrypt(key, iv, plain);
    if out.Length < INDEX_LEN + IV_LEN + |text| {
      return PastEnd;
    }
    ghost var m0 := out[..];
    Copy(out, INDEX_LEN + IV_LEN, text);
    ghost var m1 := out[..];
    Copy(out, INDEX_LEN, iv);
    ghost var m2 := out[..];
    Copy(out, INDEX_LEN + IV_LEN + |plain|, tag);
    Assembled(m0, m1, m2, out[..], iv, text, tag);
    var result := ToSigned(|plain| + OVERHEAD_LEN, TWO32);
    r := if result > 0 then Done else NotDone;
  }

  /** The longest message under a usable key: the ciphertext passes the end of a 31-byte buffer. */
  method LongestMessageRunsOver(g: Gcm, little: bool, key: Key, random: seq<byte>) returns (r: Sealing)
    requires Ideal(g) && |random| == IV_LEN && KeySizeOk(key)
    ensures r.Overrun?
  {
    var list := new SessionKeyList();
    list.AddSessionKey(0, key, 0);
    assert list.Keys() == [Entry(0, key)];
    BufferExactly(TWO32 - 1);
    r := list.EncryptInner(g, little, seq(TWO32 - 1, _ => 0), random, 0);
  }

  /** Decryption of vector, ciphertext and tag, with the same test of the signed length. */
  method AesGcmDecrypt(g: Gcm, key: Key, input: seq<byte>) returns (r: Option<seq<byte>>)
    requires OVERHEAD_LEN < |input| < TWO32
    ensures r == var n := |input| - OVERHEAD_LEN;
                 if !KeySizeOk(key) || n >= TWO31 then None
                 else g.decrypt(key, input[..IV_LEN], input[IV_LEN..IV_LEN + n], input[IV_LEN + n..])
  {
    if !KeySizeOk(key) {
      return None;
    }
    var iv := input[..IV_LEN];
    var actualPlainLen := ToSigned(|input| - OVERHEAD_LEN, TWO32);
    if actualPlainLen <= 0 {
      return None;
    }
    r := g.decrypt(key, iv, input[IV_LEN..IV_LEN + actualPlainLen], input[IV_LEN + actualPlainLen..]);
  }
}
