/** Dynamic networks and the icons that follow their descriptors
    (src/features/provide_network_info). */
module Networks {
  import opened Powers
  import opened BigEndian
  import opened Numerals

  /** A network of the list; id stands for its address. */
  datatype Net = Net(id: nat, chainId: u64, name: string, bitmap: array?<u8>)

  /** A verified descriptor; an absent icon hash is all zeros. */
  datatype Descriptor = Descriptor(chainId: u64, name: string, iconHash: bytes)

  /** What reassembling a descriptor has come to: nothing usable, more to come, or
      a payload, which the parser and the signature check accept or not. */
  datatype Config = Broken | Incomplete | Parsed(descriptor: Descriptor)

  /** The data of one command. */
  type Apdu = s: bytes | |s| < 0x100

  datatype Command =
    | ProvideConfig(config: Config)
    | ProvideIcon(p1: u8, chunk: Apdu)
    | GetInfo(p1: u8)
    | Unknown
    | Teardown

  const ICON_HEADER_SIZE: nat := 8
  const P1_FIRST_CHUNK: u8 := 0x01
  const P1_FOLLOWING_CHUNK: u8 := 0x00

  predicate Zeroes(s: bytes) {
    forall i :: 0 <= i < |s| ==> s[i] == 0
  }

  /** check_icon_header: the size of the whole icon file, if the header is right. */
  function IconSize(data: bytes, px: u16): (r: Option<u16>)
    ensures r.Some? ==> |data| >= ICON_HEADER_SIZE && r.value >= ICON_HEADER_SIZE
  {
    if |data| < ICON_HEADER_SIZE then None
    else
      var width := data[0] as int + 0x100 * data[1] as int;
      var height := data[2] as int + 0x100 * data[3] as int;
      var total := ICON_HEADER_SIZE + data[5] + 0x100 * data[6] as int + 0x1_0000 * data[7] as int;
      if width != px || height != px || total > 0xFFFF then None else Some(total)
  }

  /** The number little-endian bytes stand for. */
  function LE(s: bytes): nat {
    if s == [] then 0 else s[0] + 0x100 * LE(s[1..])
  }

  /** A header is right exactly when its first two little-endian pairs are the
      expected width and height; the size is that of the header and of the three
      little-endian bytes behind the fifth, if it fits 16 bits. */
  lemma IconHeader(data: bytes, px: u16, size: nat)
    ensures IconSize(data, px) == Some(size) <==>
      |data| >= 8 && LE(data[..2]) == px && LE(data[2..4]) == px && size == 8 + LE(data[5..8]) <= 0xFFFF
  {
    if |data| >= 8 {
      TwoLE(data[..2]);
      TwoLE(data[2..4]);
      ThreeLE(data[5..8]);
    }
  }

  lemma TwoLE(s: bytes)
    requires |s| == 2
    ensures LE(s) == s[0] + 0x100 * s[1] as int
  {
    assert s[1..][1..] == [] && s[1..][0] == s[1];
    assert LE(s[1..]) == s[1];
  }

  lemma ThreeLE(s: bytes)
    requires |s| == 3
    ensures LE(s) == s[0] + 0x100 * s[1] as int + 0x1_0000 * s[2] as int
  {
    TwoLE(s[1..]);
  }

  /** An icon file: width, height, depth, length of the image, image. */
  function IconFile(px: u16, bpp: u8, image: bytes): (file: bytes)
    requires |image| < 0x100_0000
    ensures |file| == 8 + |image|
  {
    [px % 0x100, px / 0x100, px % 0x100, px / 0x100, bpp, |image| % 0x100, |image| / 0x100 % 0x100, |image| / 0x1_0000] + image
  }

  /** Every icon file of the expected width and height that fits 16 bits is
      accepted, and its size is its length. */
  lemma IconFileSize(px: u16, bpp: u8, image: bytes)
    requires 8 + |image| <= 0xFFFF
    ensures var file := IconFile(px, bpp, image); IconSize(file, px) == Some(|file|)
  {
    var file := IconFile(px, bpp, image);
    assert file[0] == file[2] == px % 0x100 && file[1] == file[3] == px / 0x100;
    assert file[5] == |image| % 0x100 && file[6] == |image| / 0x100 % 0x100 && file[7] == |image| / 0x1_0000;
  }

  lemma IconSizeOfPrefix(data: bytes, more: bytes, px: u16)
    requires IconSize(data, px).Some?
    ensures IconSize(data + more, px) == IconSize(data, px)
  {
  }

  /** Networks have addresses and chains of their own. */
  predicate Distinct(list: seq<Net>) {
    forall i, j :: 0 <= i < j < |list| ==> list[i].id != list[j].id && list[i].chainId != list[j].chainId
  }

  /** No icon buffer is shared. */
  predicate Unshared(list: seq<Net>) {
    forall i, j :: 0 <= i < j < |list| && list[i].bitmap != null ==> list[i].bitmap != list[j].bitmap
  }

  function Drop(list: seq<Net>, i: nat): seq<Net>
    requires i < |list|
  {
    list[..i] + list[i + 1..]
  }

  lemma DropAt(list: seq<Net>, i: nat)
    requires i < |list|
    ensures forall j :: 0 <= j < |list| - 1 ==> Drop(list, i)[j] == if j < i then list[j] else list[j + 1]
    ensures Distinct(list) ==> Distinct(Drop(list, i))
    ensures Unshared(list) ==> Unshared(Drop(list, i))
  {
    var d := Drop(list, i);
    assert forall j :: 0 <= j < |list| - 1 ==> d[j] == if j < i then list[j] else list[j + 1];
  }

  function FindId(list: seq<Net>, id: nat): (i: nat)
    ensures i <= |list| && (i < |list| ==> list[i].id == id)
    ensures forall j :: 0 <= j < i ==> list[j].id != id
  {
    if list == [] || list[0].id == id then 0 else 1 + FindId(list[1..], id)
  }

  function FindChain(list: seq<Net>, chainId: u64): (i: nat)
    ensures i <= |list| && (i < |list| ==> list[i].chainId == chainId)
    ensures forall j :: 0 <= j < i ==> list[j].chainId != chainId
  {
    if list == [] || list[0].chainId == chainId then 0 else 1 + FindChain(list[1..], chainId)
  }

  lemma StillListed(list: seq<Net>, i: nat, id: nat)
    requires i < |list| && list[i].id != id && FindId(list, id) < |list|
    ensures FindId(Drop(list, i), id) < |list| - 1
  {
    var k := FindId(list, id);
    DropAt(list, i);
    assert Drop(list, i)[if k < i then k else k - 1] == list[k];
  }

  /** The list without the network of a chain. */
  function WithoutChain(list: seq<Net>, chainId: u64): seq<Net> {
    var i := FindChain(list, chainId);
    if i < |list| then Drop(list, i) else list
  }

  /** The list without a given network. */
  function Without(list: seq<Net>, id: Option<nat>): seq<Net> {
    if id.None? then list
    else
      var i := FindId(list, id.value);
      if i < |list| then Drop(list, i) else list
  }

  class Registry {
    const px: u16
    const sha256: bytes -> bytes
    var list: seq<Net>
    var last: Option<nat>
    var iconHash: Option<bytes>
    var pending: array?<u8>
    var received: u16
    var expected: u16
    var next: nat
    // an allocation has failed
    ghost var starved: bool
    // the icon hash each descriptor announced
    ghost var announced: map<nat, bytes>

    ghost function Bitmaps(): set<array?<u8>>
      reads this
    {
      set n | n in list :: n.bitmap
    }

    /** Chains are unique, and the last added network is in the list. */
    ghost predicate Listed()
      reads this
    {
      && Distinct(list) && Unshared(list)
      && (forall i :: 0 <= i < |list| ==> list[i].id < next && list[i].id in announced)
      && (last.Some? ==> FindId(list, last.value) < |list|)
    }

    /** A pending icon hash is the one the last added network announced. */
    ghost predicate HashIsLast()
      reads this
    {
      iconHash.Some? ==>
        last.Some? && last.value in announced && announced[last.value] == iconHash.value && !Zeroes(iconHash.value)
    }

    /** An attached bitmap is a whole icon whose hash its network announced. */
    ghost predicate Attested()
      reads this, Bitmaps()
    {
      forall i :: 0 <= i < |list| && list[i].bitmap != null ==>
        var b := list[i].bitmap;
        && list[i].id in announced && sha256(b[..]) == announced[list[i].id]
        && IconSize(b[..], px) == Some(b.Length)
    }

    /** An icon in reception has its own buffer, of the expected size, with room
        for what is missing. */
    ghost predicate Receiving()
      reads this, pending
    {
      pending != null ==>
        && iconHash.Some?
        && pending.Length == expected && received < expected
        && IconSize(pending[..received], px) == Some(expected)
        && (forall i :: 0 <= i < |list| ==> list[i].bitmap != pending)
    }

    /** What has been received of the icon. */
    ghost function Stream(): bytes
      reads this, pending
    {
      if pending != null && received <= pending.Length then pending[..received] else []
    }

    ghost predicate Valid()
      reads this, pending, Bitmaps()
    {
      Listed() && Attested() && HashIsLast() && Receiving()
    }

    constructor (px: u16, sha256: bytes -> bytes)
      ensures Valid() && list == [] && last.None? && !starved
    {
      this.px, this.sha256 := px, sha256;
      list, last, iconHash, pending := [], None, None, null;
      received, expected, next, announced, starved := 0, 0, 0, map[], false;
    }

    /** A first chunk is in order: its header is right, and it is not longer than
        the icon, whose hash is the announced one if it is complete already. */
    ghost predicate FirstFits(chunk: bytes, hash: Option<bytes>) {
      && hash.Some? && IconSize(chunk, px).Some?
      && var size := IconSize(chunk, px).value;
        |chunk| < size || (|chunk| == size && sha256(chunk) == hash.value)
    }

    /** clear_icon: the counters are left as they are. */
    method ClearIcon()
      modifies this`pending, this`iconHash
      ensures pending == null && iconHash.None?
    {
      pending, iconHash := null, None;
    }

    /** network_info_cleanup of one network. */
    method Cleanup(i: nat)
      requires i < |list| && Listed() && Attested()
      requires (HashIsLast() && Receiving()) || last == Some(list[i].id)
      modifies this`list, this`last, this`pending, this`iconHash
      ensures Valid()
      ensures list == Drop(old(list), i)
      ensures last == if old(last) == Some(old(list)[i].id) then None else old(last)
      ensures pending == if old(last) == Some(old(list)[i].id) then null else old(pending)
      ensures iconHash == if old(last) == Some(old(list)[i].id) then None else old(iconHash)
    {
      hide IconSize, Zeroes, Distinct, Unshared, FindId;
      var id := list[i].id;
      DropAt(list, i);
      list := Drop(list, i);
      if last == Some(id) {
        last := None;
        ClearIcon();
      } else if last.Some? {
        StillListed(old(list), i, last.value);
      }
    }

    /** What a failing command does: the last added network goes. */
    method CleanupLast()
      requires Listed() && Attested() && ((HashIsLast() && Receiving()) || last.Some?)
      modifies this`list, this`last, this`pending, this`iconHash
      ensures Valid() && last.None? && pending == null && iconHash.None?
      ensures list == Without(old(list), old(last))
    {
      hide IconSize, Zeroes;
      if last.Some? {
        Cleanup(FindId(list, last.value));
      }
    }

    /** network_info_cleanup of everything. */
    method CleanupAll()
      modifies this`list, this`last, this`pending, this`iconHash
      ensures Valid() && list == [] && last.None? && pending == null && iconHash.None?
    {
      list, last := [], None;
      ClearIcon();
    }

    /** append_network_info: a network replaces the one of its chain. The icon
        state still is that of the previous descriptor. */
    method Append(d: Descriptor) returns (ok: bool)
      requires Valid()
      modifies this`list, this`last, this`pending, this`iconHash, this`next, this`announced, this`starved
      ensures Listed() && Attested() && if ok then starved == old(starved) else starved
      ensures ok ==> last == Some(old(next)) && announced == old(announced)[old(next) := d.iconHash]
      ensures ok ==> list == WithoutChain(old(list), d.chainId) + [Net(old(next), d.chainId, d.name, null)]
      ensures !ok ==> Valid() && list == WithoutChain(old(list), d.chainId)
      ensures !ok ==> last == (if last.Some? then old(last) else None)
    {
      hide IconSize, Zeroes;
      var i := FindChain(list, d.chainId);
      if i < |list| { Cleanup(i); }
      ok := *;
      if !ok { starved := true; return; }
      ChainIsFree(old(list), d.chainId);
      Add(Net(next, d.chainId, d.name, null), d.iconHash);
    }

    method Add(n: Net, hash: bytes)
      requires Listed() && Attested() && n.id == next && n.bitmap == null
      requires forall i :: 0 <= i < |list| ==> list[i].chainId != n.chainId
      modifies this`list, this`last, this`next, this`announced
      ensures Listed() && Attested()
      ensures list == old(list) + [n] && last == Some(n.id) && announced == old(announced)[n.id := hash]
    {
      hide IconSize, Zeroes;
      list := list + [n];
      last := Some(n.id);
      announced := announced[n.id := hash];
      next := next + 1;
      assert list[|list| - 1].id == n.id;
    }

    /** prepare_network_icon: what was pending belonged to another descriptor. */
    method PrepareIcon(d: Descriptor) returns (ok: bool)
      requires Listed() && Attested() && last.Some? && last.value in announced && announced[last.value] == d.iconHash
      modifies this`pending, this`iconHash, this`starved
      ensures Valid() && pending == null && if ok then starved == old(starved) else starved
      ensures ok ==> iconHash == if Zeroes(d.iconHash) then None else Some(d.iconHash)
    {
      ClearIcon();
      if Zeroes(d.iconHash) { return true; }
      ok := *;
      if ok { iconHash := Some(d.iconHash); } else { starved := true; }
    }

    /** The configuration command. */
    method HandleConfig(config: Config) returns (ok: bool)
      requires Valid()
      modifies this`list, this`last, this`pending, this`iconHash, this`next, this`announced, this`starved
      ensures Valid()
      ensures !ok ==> starved || config.Broken?
      ensures config.Broken? ==> !ok && list == Without(old(list), old(last))
      ensures config.Incomplete? ==> ok && list == old(list) && last == old(last) && pending == old(pending) && iconHash == old(iconHash)
      ensures ok && config.Parsed? ==>
        var d := config.descriptor;
        && list == WithoutChain(old(list), d.chainId) + [Net(old(next), d.chainId, d.name, null)]
        && last == Some(old(next)) && pending == null
        && iconHash == if Zeroes(d.iconHash) then None else Some(d.iconHash)
      ensures !ok ==> last.None? && pending == null && iconHash.None?
      ensures !ok && config.Parsed? ==>
        var rest := WithoutChain(old(list), config.descriptor.chainId);
        list == rest || list == Without(rest, old(last))
    {
      hide IconSize, Zeroes, Bitmaps, Without, WithoutChain;
      match config {
        case Broken => ok := false;
        case Incomplete => return true;
        case Parsed(d) =>
          ok := Append(d);
          WithoutNobody(list);
          if ok {
            LastAddedGoes(WithoutChain(old(list), d.chainId), list[|list| - 1]);
            ok := PrepareIcon(d);
          }
      }
      if !ok { CleanupLast(); }
    }

    /** handle_first_icon_chunk: the header gives the size of a new buffer. */
    method FirstChunk(chunk: bytes) returns (ok: bool)
      requires Listed() && Attested()
      modifies this`received, this`expected, this`pending, this`starved
      ensures Attested()
      ensures ok ==> starved == old(starved)
      ensures !ok ==> starved || IconSize(chunk, px).None?
      ensures ok ==>
        && pending != null && fresh(pending) && pending.Length == expected && received == 0
        && IconSize(chunk, px) == Some(expected) && forall i :: 0 <= i < |list| ==> list[i].bitmap != pending
      ensures IconSize(chunk, px).None? ==> !ok
    {
      hide Distinct, Unshared, FindId, Zeroes;
      received, expected := 0, 0;
      var size := IconSize(chunk, px);
      if size.None? { return false; }
      ok := *;
      if !ok { starved := true; return; }
      pending := new u8[size.value];
      expected := size.value;
    }

    /** handle_next_icon_chunk: a chunk that would overflow the buffer is refused. */
    method NextChunk(chunk: bytes) returns (ok: bool)
      requires Listed() && Attested()
      requires pending != null ==>
        pending.Length == expected && received <= expected && forall i :: 0 <= i < |list| ==> list[i].bitmap != pending
      modifies this`received, pending
      ensures Attested()
      ensures ok <==> pending != null && old(received) + |chunk| <= expected
      ensures ok ==> received == old(received) + |chunk| && pending[..received] == old(pending[..received]) + chunk
    {
      hide Distinct, Unshared, FindId, Zeroes, IconSize;
      if received + |chunk| > expected || pending == null { return false; }
      forall i | 0 <= i < |chunk| { pending[received + i] := chunk[i]; }
      received := received + |chunk|;
      assert forall i :: 0 <= i < |list| && list[i].bitmap != null ==> list[i].bitmap[..] == old(list[i].bitmap[..]);
      return true;
    }

    /** parse_icon_buffer on a full buffer: the header was checked on the first
        chunk already, so only the hash decides. The network takes the buffer. */
    method ParseIcon() returns (ok: bool)
      requires Listed() && Attested() && HashIsLast() && iconHash.Some? && pending != null
      requires pending.Length == expected == received && IconSize(pending[..], px) == Some(expected)
      requires forall i :: 0 <= i < |list| ==> list[i].bitmap != pending
      modifies this`list, this`pending, this`iconHash
      ensures Listed() && Attested()
      ensures ok <==> sha256(old(pending[..])) == old(iconHash).value
      ensures ok ==> pending == null && iconHash.None?
      ensures ok ==> var k := FindId(old(list), last.value); list == old(list)[k := old(list)[k].(bitmap := old(pending))]
      ensures !ok ==> list == old(list)
    {
      hide Zeroes;
      var k := FindId(list, last.value);
      var size := IconSize(pending[..received], px);
      assert pending[..received] == pending[..];
      if size.None? || received != size.value || received > expected { return false; }
      if sha256(pending[..received]) != iconHash.value { return false; }
      iconHash := None;
      BitmapSet(list, k, pending);
      list := list[k := list[k].(bitmap := pending)];
      pending := null;
      return true;
    }

    /** The icon command. Whatever arrives, an error drops the last added network
        and all icon state with it. */
    method HandleIcon(p1: u8, chunk: bytes) returns (ok: bool)
      requires Valid() && |chunk| < 0x100
      modifies this, pending
      ensures Valid() && (pending == null || pending == old(pending) || fresh(pending))
      ensures last == if ok then old(last) else None
      ensures !ok ==> list == Without(old(list), old(last)) && pending == null && iconHash.None?
      ensures ok ==> old(last).Some? && old(iconHash).Some? && (p1 == P1_FIRST_CHUNK || p1 == P1_FOLLOWING_CHUNK)
      ensures ok && pending != null ==>
        && list == old(list) && iconHash == old(iconHash)
        && pending[..received] == (if p1 == P1_FIRST_CHUNK then [] else old(Stream())) + chunk
      ensures ok && pending == null ==>
        var k := FindId(old(list), old(last).value);
        && |list| == |old(list)| && list[k].bitmap != null && iconHash.None?
        && list == old(list)[k := old(list)[k].(bitmap := list[k].bitmap)]
        && list[k].bitmap[..] == (if p1 == P1_FIRST_CHUNK then [] else old(Stream())) + chunk
      ensures p1 == P1_FOLLOWING_CHUNK ==>
        (ok <==> old(pending) != null && var s := old(Stream()) + chunk;
          |s| < old(expected) || (|s| == old(expected) && sha256(s) == old(iconHash).value))
      ensures p1 == P1_FIRST_CHUNK ==> (ok ==> FirstFits(chunk, old(iconHash))) && (!ok ==> starved || !FirstFits(chunk, old(iconHash)))
    {
      hide FirstFits, Listed, Attested, HashIsLast, Zeroes, IconSize;
      ok := TryIcon(p1, chunk);
      if !ok { CleanupLast(); }
    }

    /** handle_network_icon_chunks. */
    method TryIcon(p1: u8, chunk: bytes) returns (ok: bool)
      requires Valid() && |chunk| < 0x100
      modifies this`list, this`pending, this`iconHash, this`received, this`expected, this`starved, pending
      ensures Listed() && Attested()
      ensures ok ==> Valid() && old(last).Some? && old(iconHash).Some? && (p1 == P1_FIRST_CHUNK || p1 == P1_FOLLOWING_CHUNK)
      ensures ok ==> pending == null || pending == old(pending) || fresh(pending)
      ensures !ok ==> list == old(list) && (Valid() || last.Some?)
      ensures ok && pending != null ==>
        && list == old(list) && iconHash == old(iconHash)
        && pending[..received] == (if p1 == P1_FIRST_CHUNK then [] else old(Stream())) + chunk
      ensures ok && pending == null ==>
        var k := FindId(old(list), old(last).value);
        && |list| == |old(list)| && list[k].bitmap != null && iconHash.None?
        && list == old(list)[k := old(list)[k].(bitmap := list[k].bitmap)]
        && list[k].bitmap[..] == (if p1 == P1_FIRST_CHUNK then [] else old(Stream())) + chunk
      ensures p1 == P1_FOLLOWING_CHUNK ==>
        (ok <==> old(pending) != null && var s := old(Stream()) + chunk;
          |s| < old(expected) || (|s| == old(expected) && sha256(s) == old(iconHash).value))
      ensures p1 == P1_FIRST_CHUNK ==> (ok ==> FirstFits(chunk, old(iconHash))) && (!ok ==> starved || !FirstFits(chunk, old(iconHash)))
    {
      hide Distinct, Unshared, FindId, Zeroes, Attested, IconSize, Bitmaps;
      if last.None? || iconHash.None? || Zeroes(iconHash.value) { return false; }
      ghost var got := if p1 == P1_FIRST_CHUNK then [] else Stream();
      if p1 == P1_FIRST_CHUNK {
        ok := FirstChunk(chunk);
        if !ok { return; }
      } else if p1 != P1_FOLLOWING_CHUNK {
        return false;
      }
      ok := NextChunk(chunk);
      if !ok { return; }
      assert pending[..received] == got + chunk;
      if p1 == P1_FOLLOWING_CHUNK { IconSizeOfPrefix(got, chunk, px); } else { assert got + chunk == chunk; }
      if received == expected {
        assert pending[..] == pending[..received];
        ok := ParseIcon();
      }
    }
  
    /** Any sequence of commands. */
    method Run(commands: seq<Command>)
      requires Valid()
      modifies this, pending
      ensures Valid()
    {
      hide Listed, Attested, HashIsLast, Receiving, Zeroes, IconSize;
      for k := 0 to |commands|
        invariant Valid() && (pending == null || pending == old(pending) || fresh(pending))
      {
        match commands[k] {
          case ProvideConfig(config) => var _ := HandleConfig(config);
          case ProvideIcon(p1, chunk) => var _ := HandleIcon(p1, chunk);
          case GetInfo(p1) => if p1 != 0 { CleanupLast(); }
          case Unknown => CleanupLast();
          case Teardown => CleanupAll();
        }
      }
    }
  }

  lemma WithoutNobody(list: seq<Net>)
    ensures Without(list, None) == list
  {
  }

  /** Dropping the network just added leaves the list as it was. */
  lemma LastAddedGoes(list: seq<Net>, n: Net)
    requires Distinct(list + [n])
    ensures Without(list + [n], Some(n.id)) == list
  {
    var all := list + [n];
    assert all[|list|] == n && forall j :: 0 <= j < |list| ==> all[j] == list[j];
    var i := FindId(all, n.id);
    assert i == |list|;
    assert Drop(all, i) == list;
  }

  lemma BitmapSet(list: seq<Net>, k: nat, b: array<u8>)
    requires k < |list| && Distinct(list) && Unshared(list) && forall i :: 0 <= i < |list| ==> list[i].bitmap != b
    ensures Distinct(list[k := list[k].(bitmap := b)]) && Unshared(list[k := list[k].(bitmap := b)])
    ensures forall id :: FindId(list[k := list[k].(bitmap := b)], id) < |list| <==> FindId(list, id) < |list|
  {
    var t := list[k := list[k].(bitmap := b)];
    assert forall i :: 0 <= i < |list| ==> t[i].id == list[i].id && t[i].chainId == list[i].chainId;
  }

  lemma ChainIsFree(list: seq<Net>, chainId: u64)
    requires Distinct(list)
    ensures forall n :: n in WithoutChain(list, chainId) ==> n.chainId != chainId
  {
    var i := FindChain(list, chainId);
    if i < |list| { DropAt(list, i); }
  }
}
