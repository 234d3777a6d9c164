/** The Multiboot2 information that kernel_main reads (sections 3.6.2, 3.6.8 and
    3.6.12 of the Multiboot2 Specification 2.0), in memory of 32-bit words. */
module BootInfo {
  import opened Machine
  import opened MemoryMap

  const TAG_MMAP: nat := 6
  const TAG_FRAMEBUFFER: nat := 8

  /** body is what follows the 8-byte head, up to the next multiple of 8 bytes. */
  datatype Tag = Tag(kind: Word, size: Word, body: seq<Word>) {
    predicate Ok() {
      && kind != 0
      && size >= (if kind == TAG_FRAMEBUFFER then 32 else if kind == TAG_MMAP then 16 else 8)
      && |body| == 2 * Eighths(size) - 2
    }

    function Words(): (w: seq<Word>)
      ensures |w| == 2 + |body|
    {
      [kind, size] + body
    }
  }

  /** A uint64_t from its two words. */
  function Wide(lo: nat, hi: nat): nat {
    lo + hi * 0x1_0000_0000
  }

  /** How many groups of 8 bytes a tag takes. */
  function Eighths(size: nat): (n: nat)
    ensures size <= 8 * n < size + 8
  {
    (size + 7) / 8
  }

  /** The distance to the next tag: (size + 7) & ~7. */
  function Padded(size: nat): nat {
    8 * Eighths(size)
  }

  datatype Option<T> = None | Some(value: T)

  datatype Framebuffer = Framebuffer(addr: nat, pitch: Word, width: Word, height: Word, bpp: nat)

  /** g_fb_* and the memory-map span, as byte address and length. */
  datatype Info = Info(framebuffer: Option<Framebuffer>, mmap: Option<MapSpan>)

  datatype MapSpan = MapSpan(addr: nat, length: nat)

  ghost predicate TagsOk(tags: seq<Tag>) {
    forall i :: 0 <= i < |tags| ==> tags[i].Ok()
  }

  /** The tags in memory, closed by the end tag. */
  function Encode(tags: seq<Tag>): (w: seq<Word>)
    ensures |w| >= 2
  {
    if tags == [] then [0, 8] else tags[0].Words() + Encode(tags[1..])
  }

  /** The byte addresses of the tags, if the first is at addr. */
  function Positions(tags: seq<Tag>, addr: nat): (p: seq<nat>)
    ensures |p| == |tags|
  {
    if tags == [] then [] else [addr] + Positions(tags[1..], addr + 4 * |tags[0].Words()|)
  }

  function FramebufferOf(t: Tag): Framebuffer
    requires t.Ok() && t.kind == TAG_FRAMEBUFFER
  {
    Framebuffer(Wide(t.body[0], t.body[1]), t.body[2], t.body[3], t.body[4], t.body[5] % 256)
  }

  /** The last tag of a kind, or none. */
  function LastOf(tags: seq<Tag>, kind: Word): (k: int)
    ensures -1 <= k < |tags|
    ensures k >= 0 ==> tags[k].kind == kind
    ensures forall i :: k < i < |tags| ==> tags[i].kind != kind
  {
    if tags == [] then -1
    else if tags[|tags| - 1].kind == kind then |tags| - 1
    else LastOf(tags[..|tags| - 1], kind)
  }

  ghost function LastFramebuffer(tags: seq<Tag>): Option<Framebuffer>
    requires TagsOk(tags)
  {
    var f := LastOf(tags, TAG_FRAMEBUFFER);
    if f < 0 then None else Some(FramebufferOf(tags[f]))
  }

  ghost function LastMap(tags: seq<Tag>, addr: nat): Option<MapSpan>
    requires TagsOk(tags)
  {
    var m := LastOf(tags, TAG_MMAP);
    if m < 0 then None else Some(MapSpan(Positions(tags, addr)[m] + 16, tags[m].size - 16))
  }

  /** What the tags say: the last framebuffer and the last memory map. */
  ghost function Meaning(tags: seq<Tag>, addr: nat): Info
    requires TagsOk(tags)
  {
    Info(LastFramebuffer(tags), LastMap(tags, addr))
  }

  lemma {:induction false} EncodeAppend(front: seq<Tag>, back: seq<Tag>)
    ensures Encode(front + back) == Encode(front)[..|Encode(front)| - 2] + Encode(back)
  {
    hide Tag.Words;
    if front == [] {
      assert front + back == back;
    } else {
      EncodeAppend(front[1..], back);
      assert (front + back)[0] == front[0] && (front + back)[1..] == front[1..] + back;
      EncodeFirst(front);
      EncodeFirst(front + back);
      hide Encode;
      WithoutEnd(front[0].Words(), Encode(front[1..]), Encode(back));
    }
  }

  lemma EncodeFirst(tags: seq<Tag>)
    requires tags != []
    ensures Encode(tags) == tags[0].Words() + Encode(tags[1..])
  {
  }

  lemma WithoutEnd(w: seq<Word>, e: seq<Word>, back: seq<Word>)
    requires |e| >= 2
    ensures w + (e[..|e| - 2] + back) == (w + e)[..|w + e| - 2] + back
  {
    assert (w + e)[..|w + e| - 2] == w + e[..|e| - 2];
  }

  /** The bytes that tags take in memory. */
  function Bytes(tags: seq<Tag>): nat {
    if tags == [] then 0 else 4 * |tags[0].Words()| + Bytes(tags[1..])
  }

  lemma {:induction false} EncodeLength(tags: seq<Tag>)
    ensures 4 * |Encode(tags)| == Bytes(tags) + 8
  {
    if tags != [] {
      EncodeLength(tags[1..]);
    }
  }

  lemma {:induction false} PositionsAppend(front: seq<Tag>, back: seq<Tag>, addr: nat)
    ensures Positions(front + back, addr) == Positions(front, addr) + Positions(back, addr + Bytes(front))
  {
    if front == [] {
      assert front + back == back;
      assert [] + Positions(back, addr) == Positions(back, addr);
    } else {
      hide Tag.Words, Bytes, Positions;
      var rest, next := front[1..], addr + 4 * |front[0].Words()|;
      BytesFirst(front);
      PositionsAppend(rest, back, next);
      assert (front + back)[0] == front[0] && (front + back)[1..] == rest + back;
      PositionsFirst(front, addr);
      PositionsFirst(front + back, addr);
      ConsAppend(addr, Positions(rest, next), Positions(back, next + Bytes(rest)));
    }
  }

  lemma BytesFirst(tags: seq<Tag>)
    requires tags != []
    ensures Bytes(tags) == 4 * |tags[0].Words()| + Bytes(tags[1..])
  {
  }

  lemma PositionsFirst(tags: seq<Tag>, addr: nat)
    requires tags != []
    ensures Positions(tags, addr) == [addr] + Positions(tags[1..], addr + 4 * |tags[0].Words()|)
  {
  }

  lemma ConsAppend(x: nat, s: seq<nat>, t: seq<nat>)
    ensures [x] + (s + t) == ([x] + s) + t
  {
  }

  /** Tag k of the encoding: its words are at its position, and the next tag follows. */
  lemma TagAt(tags: seq<Tag>, k: nat)
    requires k <= |tags|
    ensures var e, at := Encode(tags), |Encode(tags[..k])| - 2;
      && at + 2 <= |e|
      && (k < |tags| ==>
            && at + |tags[k].Words()| + 2 <= |e| && e[at..at + |tags[k].Words()|] == tags[k].Words()
            && |Encode(tags[..k + 1])| - 2 == at + |tags[k].Words()|)
      && (k == |tags| ==> e[at..] == [0, 8])
  {
    assert tags == tags[..k] + tags[k..];
    EncodeAppend(tags[..k], tags[k..]);
    if k < |tags| {
      assert tags[..k + 1] == tags[..k] + [tags[k]];
      EncodeAppend(tags[..k], [tags[k]]);
      assert Encode([tags[k]]) == tags[k].Words() + [0, 8];
    }
  }

  lemma {:induction false} PositionIs(tags: seq<Tag>, addr: nat, k: nat)
    requires k < |tags|
    ensures Positions(tags, addr)[k] == addr + 4 * (|Encode(tags[..k])| - 2)
  {
    assert tags == tags[..k] + tags[k..];
    EncodeLength(tags[..k]);
    PositionsAppend(tags[..k], tags[k..], addr);
  }

  // ---------- Slices ----------

  lemma SliceOfSlice(m: seq<Word>, lo: nat, hi: nat, i: nat, j: nat)
    requires lo <= hi <= |m| && i <= j <= hi - lo
    ensures m[lo..hi][i..j] == m[lo + i..lo + j]
  {
    assert |m[lo..hi][i..j]| == |m[lo + i..lo + j]|;
    forall k | 0 <= k < j - i
      ensures m[lo..hi][i..j][k] == m[lo + i..lo + j][k]
    {
      assert m[lo..hi][i..j][k] == m[lo..hi][i + k] == m[lo + i + k];
    }
  }

  lemma SliceAt(m: seq<Word>, lo: nat, t: seq<Word>, i: nat)
    requires lo + |t| <= |m| && m[lo..lo + |t|] == t && i < |t|
    ensures m[lo + i] == t[i]
  {
    assert m[lo..lo + |t|][i] == m[lo + i];
  }

  /** A part of what memory holds is in memory. */
  lemma PartAt(m: seq<Word>, base: nat, e: seq<Word>, at: nat, t: seq<Word>)
    requires base + |e| <= |m| && m[base..base + |e|] == e
    requires at + |t| <= |e| && e[at..at + |t|] == t
    ensures base + at + |t| <= |m| && m[base + at..base + at + |t|] == t
  {
    SliceOfSlice(m, base, base + |e|, at, at + |t|);
  }

  lemma FramebufferStep(tags: seq<Tag>, k: nat)
    requires TagsOk(tags) && k < |tags| && TagsOk(tags[..k]) && TagsOk(tags[..k + 1])
    ensures LastFramebuffer(tags[..k + 1]) ==
      if tags[k].kind == TAG_FRAMEBUFFER then Some(FramebufferOf(tags[k])) else LastFramebuffer(tags[..k])
  {
    LastStep(tags, k, TAG_FRAMEBUFFER);
    hide Tag.Ok, FramebufferOf, LastOf;
  }

  lemma MapStep(tags: seq<Tag>, addr: nat, k: nat)
    requires TagsOk(tags) && k < |tags| && TagsOk(tags[..k]) && TagsOk(tags[..k + 1])
    ensures LastMap(tags[..k + 1], addr) ==
      if tags[k].kind == TAG_MMAP then Some(MapSpan(Positions(tags, addr)[k] + 16, tags[k].size - 16))
      else LastMap(tags[..k], addr)
  {
    hide Tag.Words, Tag.Ok, TagsOk, Positions, LastOf;
    LastStep(tags, k, TAG_MMAP);
    PositionsPrefix(tags, addr, k);
    PositionsPrefix(tags, addr, k + 1);
  }

  lemma LastStep(tags: seq<Tag>, k: nat, kind: Word)
    requires k < |tags|
    ensures LastOf(tags[..k + 1], kind) == if tags[k].kind == kind then k else LastOf(tags[..k], kind)
  {
    assert tags[..k + 1][..k] == tags[..k];
  }

  lemma PrefixOk(tags: seq<Tag>, k: nat)
    requires TagsOk(tags) && k < |tags|
    ensures TagsOk(tags[..k]) && TagsOk(tags[..k + 1])
  {
    hide Tag.Ok;
  }

  lemma PositionsPrefix(tags: seq<Tag>, addr: nat, k: nat)
    requires k <= |tags|
    ensures Positions(tags[..k], addr) == Positions(tags, addr)[..k]
  {
    assert tags == tags[..k] + tags[k..];
    PositionsAppend(tags[..k], tags[k..], addr);
  }

  /** One step of the walk: the tag at byte address at, and the address of the next. */
  function ReadTag(m: seq<Word>, at: nat, info: Info): (r: (Info, nat))
    requires at / 4 + 1 < |m| && (m[at / 4] == TAG_FRAMEBUFFER ==> at / 4 + 8 <= |m|)
  {
    var w := at / 4;
    var size: nat := m[w + 1];
    (if m[w] == TAG_FRAMEBUFFER then
       info.(framebuffer := Some(Framebuffer(Wide(m[w + 2], m[w + 3]), m[w + 4], m[w + 5], m[w + 6], m[w + 7] % 256)))
     else if m[w] == TAG_MMAP then info.(mmap := Some(MapSpan(at + 16, (size + 0xFFFF_FFF0) % 0x1_0000_0000)))
     else info,
     at + Padded(size))
  }

  lemma MeaningStep(tags: seq<Tag>, addr: nat, k: nat)
    requires TagsOk(tags) && k < |tags| && TagsOk(tags[..k]) && TagsOk(tags[..k + 1]) && tags[k].Ok()
    ensures Meaning(tags[..k + 1], addr) ==
      if tags[k].kind == TAG_FRAMEBUFFER then
        Meaning(tags[..k], addr).(framebuffer := Some(FramebufferOf(tags[k])))
      else if tags[k].kind == TAG_MMAP then
        Meaning(tags[..k], addr).(mmap := Some(MapSpan(addr + 4 * (|Encode(tags[..k])| - 2) + 16, tags[k].size - 16)))
      else Meaning(tags[..k], addr)
  {
    hide LastFramebuffer, LastMap, Tag.Words, FramebufferOf, Encode, Positions, TagsOk;
    FramebufferStep(tags, k);
    MapStep(tags, addr, k);
    PositionIs(tags, addr, k);
  }

  /** What one step of the walk reads: tag k of the list at word w of memory. */
  lemma Visit(m: seq<Word>, tags: seq<Tag>, k: nat, base: nat, w: nat)
    requires TagsOk(tags) && k < |tags| && base >= 2 && base + |Encode(tags)| <= |m|
    requires m[base..base + |Encode(tags)|] == Encode(tags) && w == base + |Encode(tags[..k])| - 2
    ensures TagsOk(tags[..k]) && TagsOk(tags[..k + 1])
    ensures w + 1 < |m| && (m[w] == TAG_FRAMEBUFFER ==> w + 8 <= |m|)
    ensures var (info, next) := ReadTag(m, 4 * w, Meaning(tags[..k], 4 * base));
      && info == Meaning(tags[..k + 1], 4 * base)
      && next == 4 * (base + |Encode(tags[..k + 1])| - 2)
      && next / 4 < |m| && (m[next / 4] == 0 <==> k + 1 == |tags|)
    ensures Positions(tags, 4 * base)[..k + 1] == Positions(tags, 4 * base)[..k] + [4 * w]
  {
    hide Meaning, Tag.Words, Tag.Ok, FramebufferOf, Encode, Positions, TagsOk;
    PrefixOk(tags, k);
    TagOk(tags, k);
    TagAt(tags, k);
    PositionIs(tags, 4 * base, k);
    MeaningStep(tags, 4 * base, k);
    EndOrTag(m, tags, k, base, w);
    TagWords(m, w, tags[k]);
    EndOrTag(m, tags, k + 1, base, w + 2 * Eighths(m[w + 1]));
  }

  lemma TagOk(tags: seq<Tag>, k: nat)
    requires TagsOk(tags) && k < |tags|
    ensures tags[k].Ok() && tags[k].kind != 0
    ensures tags[k].kind == TAG_MMAP ==> tags[k].size >= 16
  {
  }

  /** The tag walk of kernel_main over any well-formed tag list: it terminates, visits
      each tag exactly once, and yields the last framebuffer and memory map. */
  method Walk(m: array<Word>, mbInfo: nat, ghost tags: seq<Tag>) returns (info: Info, ghost visited: seq<nat>)
    requires m.Length == MEMORY_WORDS && mbInfo % 8 == 0 && TagsOk(tags)
    requires mbInfo / 4 + 2 + |Encode(tags)| <= MEMORY_WORDS
    requires m[mbInfo / 4 + 2..mbInfo / 4 + 2 + |Encode(tags)|] == Encode(tags)
    ensures info == Meaning(tags, mbInfo + 8)
    ensures visited == Positions(tags, mbInfo + 8)
  {
    hide Meaning, TagsOk, Positions, Encode, ReadTag, Walked;
    var tag: nat := mbInfo + 8;
    info := Info(None, None);
    visited := [];
    ghost var k := 0;
    ghost var base, words := mbInfo / 4 + 2, m[..];
    WalkStart(words, tags, base);
    while m[tag / 4] != 0
      invariant k <= |tags| && tag / 4 < MEMORY_WORDS && (m[tag / 4] == 0 <==> k == |tags|)
      invariant Walked(words, tags, base, k, tag, info, visited)
      decreases |tags| - k
    {
      WalkStep(words, tags, base, k, tag, info, visited);
      visited := visited + [tag];
      info, tag := ReadTagAt(m, tag, info);
      k := k + 1;
    }
    WalkEnd(words, tags, base, tag, info, visited);
  }

  /** The state of the walk at tag k of a list in memory. */
  ghost predicate Walked(m: seq<Word>, tags: seq<Tag>, base: nat, k: nat, tag: nat, info: Info, visited: seq<nat>) {
    && TagsOk(tags) && k <= |tags| && TagsOk(tags[..k])
    && base >= 2 && base + |Encode(tags)| <= |m| && m[base..base + |Encode(tags)|] == Encode(tags)
    && tag == 4 * (base + |Encode(tags[..k])| - 2)
    && info == Meaning(tags[..k], 4 * base)
    && visited == Positions(tags, 4 * base)[..k]
  }

  lemma WalkStep(m: seq<Word>, tags: seq<Tag>, base: nat, k: nat, tag: nat, info: Info, visited: seq<nat>)
    requires Walked(m, tags, base, k, tag, info, visited) && k < |tags|
    ensures tag / 4 + 1 < |m| && (m[tag / 4] == TAG_FRAMEBUFFER ==> tag / 4 + 8 <= |m|)
    ensures var (info', next) := ReadTag(m, tag, info);
      && Walked(m, tags, base, k + 1, next, info', visited + [tag])
      && next / 4 < |m| && (m[next / 4] == 0 <==> k + 1 == |tags|)
  {
    hide Meaning, Tag.Words, Encode, Positions, TagsOk, ReadTag;
    var w := base + |Encode(tags[..k])| - 2;
    assert tag == 4 * w;
    Quotient(tag, w, 0, 4);
    Visit(m, tags, k, base, w);
  }

  lemma WalkEnd(m: seq<Word>, tags: seq<Tag>, base: nat, tag: nat, info: Info, visited: seq<nat>)
    requires Walked(m, tags, base, |tags|, tag, info, visited)
    ensures TagsOk(tags) && info == Meaning(tags, 4 * base) && visited == Positions(tags, 4 * base)
  {
    hide Meaning, Encode, Positions;
    assert tags[..|tags|] == tags;
  }

  lemma WalkStart(m: seq<Word>, tags: seq<Tag>, base: nat)
    requires TagsOk(tags) && base >= 2
    requires base + |Encode(tags)| <= |m| && m[base..base + |Encode(tags)|] == Encode(tags)
    ensures Walked(m, tags, base, 0, 4 * base, Info(None, None), [])
    ensures m[base] == 0 <==> |tags| == 0
  {
    assert tags[..0] == [];
    NoTags(4 * base);
    EndOrTag(m, tags, 0, base, base);
  }

  method ReadTagAt(m: array<Word>, at: nat, info: Info) returns (info': Info, next: nat)
    requires at / 4 + 1 < m.Length && (m[at / 4] == TAG_FRAMEBUFFER ==> at / 4 + 8 <= m.Length)
    ensures (info', next) == ReadTag(m[..], at, info)
  {
    var w := at / 4;
    var size: nat := m[w + 1];
    info' := info;
    if m[w] == TAG_FRAMEBUFFER {
      var fb := Framebuffer(Wide(m[w + 2], m[w + 3]), m[w + 4], m[w + 5], m[w + 6], m[w + 7] % 256);
      info' := info.(framebuffer := Some(fb));
    } else if m[w] == TAG_MMAP {
      info' := info.(mmap := Some(MapSpan(at + 16, (size + 0xFFFF_FFF0) % 0x1_0000_0000)));
    }
    next := at + Padded(size);
  }

  lemma NoTags(addr: nat)
    ensures TagsOk([]) && Meaning([], addr) == Info(None, None)
  {
  }

  lemma BodyAt(m: seq<Word>, w: nat, t: Tag, i: nat)
    requires w + |t.Words()| <= |m| && m[w..w + |t.Words()|] == t.Words() && i < |t.body|
    ensures m[w + 2 + i] == t.body[i]
  {
    SliceAt(m, w, t.Words(), i + 2);
  }

  lemma HeadAt(m: seq<Word>, w: nat, t: Tag)
    requires w + |t.Words()| <= |m| && m[w..w + |t.Words()|] == t.Words()
    ensures m[w] == t.kind && m[w + 1] == t.size
  {
    SliceAt(m, w, t.Words(), 0);
    SliceAt(m, w, t.Words(), 1);
  }

  /** What the walk reads of a tag. */
  lemma TagWords(m: seq<Word>, w: nat, t: Tag)
    requires t.Ok() && w + |t.Words()| <= |m| && m[w..w + |t.Words()|] == t.Words()
    ensures 4 * |t.Words()| == Padded(t.size) && m[w] == t.kind && m[w + 1] == t.size
    ensures t.kind == TAG_FRAMEBUFFER ==>
      && w + 8 <= |m|
      && FramebufferOf(t) == Framebuffer(Wide(m[w + 2], m[w + 3]), m[w + 4], m[w + 5], m[w + 6], m[w + 7] % 256)
  {
    hide Tag.Words, Eighths, Wide;
    HeadAt(m, w, t);
    if t.kind == TAG_FRAMEBUFFER {
      BodyAt(m, w, t, 0);
      BodyAt(m, w, t, 1);
      BodyAt(m, w, t, 2);
      BodyAt(m, w, t, 3);
      BodyAt(m, w, t, 4);
      BodyAt(m, w, t, 5);
    }
  }

  /** Tag k of an encoded list in memory, and what its first word says. */
  lemma EndOrTag(m: seq<Word>, tags: seq<Tag>, k: nat, base: nat, w: nat)
    requires TagsOk(tags) && k <= |tags| && base + |Encode(tags)| <= |m|
    requires m[base..base + |Encode(tags)|] == Encode(tags) && w == base + |Encode(tags[..k])| - 2
    ensures w < |m| && (m[w] == 0 <==> k == |tags|)
    ensures k < |tags| ==> w + |tags[k].Words()| <= |m| && m[w..w + |tags[k].Words()|] == tags[k].Words()
  {
    hide Encode, TagsOk, Tag.Ok, Tag.Words;
    TagAt(tags, k);
    var e, at := Encode(tags), |Encode(tags[..k])| - 2;
    if k < |tags| {
      TagOk(tags, k);
      PartAt(m, base, e, at, tags[k].Words());
      HeadAt(m, w, tags[k]);
    } else {
      PartAt(m, base, e, at, [0, 8]);
      SliceAt(m, w, [0, 8], 0);
    }
  }
}

/** The memory-map entries behind the span that the tag walk yields. */
module MapEntries {
  import opened Machine
  import opened MemoryMap
  import opened BootInfo

  /** sizeof(multiboot2_mmap_entry), in bytes and in words. */
  const ENTRY: nat := 24

  function RegionAt(m: seq<Word>, at: nat): (r: Region)
    requires at / 4 + 6 <= |m|
    ensures r.Fits()
  {
    var w := at / 4;
    Region(Wide(m[w], m[w + 1]), Wide(m[w + 2], m[w + 3]), m[w + 4])
  }

  /** An entry as it is laid out in memory. */
  function EntryWords(r: Region): (w: seq<Word>)
    requires r.Fits()
    ensures |w| == 6
  {
    [r.addr % 0x1_0000_0000, r.addr / 0x1_0000_0000, r.len % 0x1_0000_0000, r.len / 0x1_0000_0000, r.kind, 0]
  }

  function EncodeMap(rs: Map): (w: seq<Word>)
    ensures |w| == 6 * |rs|
  {
    if rs == [] then [] else EntryWords(rs[0]) + EncodeMap(rs[1..])
  }

  lemma EntryRoundTrip(m: seq<Word>, at: nat, r: Region)
    requires r.Fits() && at / 4 + 6 <= |m| && m[at / 4..at / 4 + 6] == EntryWords(r)
    ensures RegionAt(m, at) == r
  {
    var w := EntryWords(r);
    assert forall i :: 0 <= i < 6 ==> m[at / 4 + i] == m[at / 4..at / 4 + 6][i] == w[i];
    assert m[at / 4 + 0] == w[0];
  }

  /** The words from w on are the entry of r: address and length with the low word
      first, and the type; the sixth word is reserved. */
  predicate EntryAt(words: seq<Word>, w: nat, r: Region) {
    && w + 5 <= |words|
    && words[w] as nat + words[w + 1] as nat * 0x1_0000_0000 == r.addr
    && words[w + 2] as nat + words[w + 3] as nat * 0x1_0000_0000 == r.len
    && words[w + 4] == r.kind
  }

  /** What is decoded at an address is the entry there. */
  lemma EntryRead(m: seq<Word>, at: nat, r: Region)
    requires at / 4 + 6 <= |m|
    ensures RegionAt(m, at) == r <==> EntryAt(m, at / 4, r)
  {
  }

  /** The addresses that the region loop of paging_init_full visits. */
  function PagingVisits(at: nat, end: nat): (v: seq<nat>)
    ensures |v| == if at < end then (end - at + 23) / 24 else 0
    ensures forall i :: 0 <= i < |v| ==> v[i] == at + 24 * i
    decreases if at < end then end - at else 0
  {
    if at < end then [at] + PagingVisits(at + 24, end) else []
  }

  /** What both region loops read at an entry. */
  method ReadEntry(m: array<Word>, at: nat) returns (r: Region)
    requires m.Length == MEMORY_WORDS && at / 4 + 6 <= MEMORY_WORDS
    ensures r == RegionAt(m[..], at)
  {
    var w := at / 4;
    r := Region(Wide(m[w], m[w + 1]), Wide(m[w + 2], m[w + 3]), m[w + 4]);
  }

  /** An entry is read the same in two memories that agree on its words. */
  lemma RegionSame(m: seq<Word>, m': seq<Word>, at: nat)
    requires |m'| == |m| && at / 4 + 6 <= |m|
    requires forall w :: at / 4 <= w < at / 4 + 6 ==> m'[w] == m[w]
    ensures RegionAt(m', at) == RegionAt(m, at)
  {
    hide Wide;
    var w := at / 4;
    assert m'[w + 0] == m[w] && m'[w + 1] == m[w + 1] && m'[w + 2] == m[w + 2] && m'[w + 3] == m[w + 3];
  }

  /** The regions that the loop of paging_init_full decodes: one for each 24 bytes, the
      last one also when the span ends inside it. */
  function Decoded(m: seq<Word>, at: nat, end: nat): (rs: Map)
    requires |m| == MEMORY_WORDS && end + ENTRY <= TWO32
    ensures |rs| == |PagingVisits(at, end)|
    decreases if at < end then end - at else 0
  {
    if at < end then [RegionAt(m, at)] + Decoded(m, at + 24, end) else []
  }

  lemma DecodedFirst(m: seq<Word>, at: nat, end: nat)
    requires |m| == MEMORY_WORDS && end + ENTRY <= TWO32
    ensures Decoded(m, at, end) == if at < end then [RegionAt(m, at)] + Decoded(m, at + 24, end) else []
  {
    hide RegionAt;
  }

  /** They are the entries at the visited addresses, in order. */
  lemma {:induction false} DecodedAt(m: seq<Word>, at: nat, end: nat, i: nat)
    requires |m| == MEMORY_WORDS && end + ENTRY <= TWO32 && i < |PagingVisits(at, end)|
    ensures at + 24 * i + 24 <= TWO32 && Decoded(m, at, end)[i] == RegionAt(m, at + 24 * i)
    decreases i
  {
    hide RegionAt;
    if i > 0 {
      assert Decoded(m, at, end)[i] == Decoded(m, at + 24, end)[i - 1];
      DecodedAt(m, at + 24, end, i - 1);
    }
  }

  lemma {:induction false} MapWordsAt(rs: Map, i: nat)
    requires i < |rs|
    ensures EncodeMap(rs)[6 * i..6 * i + 6] == EntryWords(rs[i])
  {
    hide EntryWords;
    var e := EncodeMap(rs);
    if i > 0 {
      MapWordsAt(rs[1..], i - 1);
      assert e[6..|e|] == EncodeMap(rs[1..]);
      SliceOfSlice(e, 6, |e|, 6 * (i - 1), 6 * (i - 1) + 6);
    }
  }

  /** Decoding the encoded map yields each of its entries once, in order. */
  lemma MapRoundTrip(m: seq<Word>, addr: nat, rs: Map, i: nat)
    requires |m| == MEMORY_WORDS && addr % 4 == 0 && addr + 24 * |rs| <= TWO32 && i < |rs|
    requires m[addr / 4..addr / 4 + 6 * |rs|] == EncodeMap(rs)
    ensures |PagingVisits(addr, addr + 24 * |rs|)| == |rs|
    ensures addr + 24 * i + 24 <= TWO32 && RegionAt(m, addr + 24 * i) == rs[i]
  {
    hide EntryWords, EncodeMap, RegionAt;
    MapWordsAt(rs, i);
    var w := addr / 4;
    assert (addr + 24 * i) / 4 == w + 6 * i;
    SliceOfSlice(m, w, w + 6 * |rs|, 6 * i, 6 * i + 6);
    EntryRoundTrip(m, addr + 24 * i, rs[i]);
  }

  /** The addresses that the region loop of pmm_init visits: it steps 32 bytes behind
      an entry of type 1. */
  function PmmVisits(m: seq<Word>, at: nat, end: nat): seq<nat>
    requires |m| == MEMORY_WORDS && end + 32 <= TWO32
    decreases if at < end then end - at else 0
  {
    if at < end then
      [at] + PmmVisits(m, at + (if RegionAt(m, at).kind == RAM then 32 else 24), end)
    else []
  }

  /** The regions that it decodes there. */
  function Visited(m: seq<Word>, at: nat, end: nat): Map
    requires |m| == MEMORY_WORDS && end + 32 <= TWO32
    decreases if at < end then end - at else 0
  {
    if at < end then
      [RegionAt(m, at)] + Visited(m, at + (if RegionAt(m, at).kind == RAM then 32 else 24), end)
    else []
  }

  lemma VisitedFirst(m: seq<Word>, at: nat, end: nat)
    requires |m| == MEMORY_WORDS && end + 32 <= TWO32
    ensures Visited(m, at, end) ==
      if at < end then [RegionAt(m, at)] + Visited(m, at + (if RegionAt(m, at).kind == RAM then 32 else 24), end)
      else []
  {
    hide RegionAt;
  }

  /** They are the entries at the addresses it visits, in order. */
  lemma {:induction false} VisitedAt(m: seq<Word>, at: nat, end: nat, i: nat)
    requires |m| == MEMORY_WORDS && end + 32 <= TWO32 && i < |PmmVisits(m, at, end)|
    ensures |Visited(m, at, end)| == |PmmVisits(m, at, end)| && PmmVisits(m, at, end)[i] < end
    ensures Visited(m, at, end)[i] == RegionAt(m, PmmVisits(m, at, end)[i])
    decreases if at < end then end - at else 0
  {
    hide RegionAt;
    var next := at + (if RegionAt(m, at).kind == RAM then 32 else 24);
    if i > 0 {
      VisitedAt(m, next, end, i - 1);
    } else if next < end {
      VisitedAt(m, next, end, 0);
    } else {
      VisitedFirst(m, next, end);
    }
  }

  /** The loop starts at the first entry, steps 32 bytes behind an entry of type 1 and 24
      behind any other, and ends with the step that reaches the end. */
  lemma {:induction false} PmmSteps(m: seq<Word>, at: nat, end: nat, i: nat)
    requires |m| == MEMORY_WORDS && end + 32 <= TWO32 && i < |PmmVisits(m, at, end)|
    ensures at < end && PmmVisits(m, at, end)[0] == at
    ensures var v := PmmVisits(m, at, end);
      && v[i] < end
      && var next := v[i] + (if m[v[i] / 4 + 4] == 1 then 32 else 24);
         if i + 1 < |v| then v[i + 1] == next else next >= end
    decreases i
  {
    hide PmmVisits;
    PmmFirst(m, at, end);
    var next := at + (if RegionAt(m, at).kind == RAM then 32 else 24);
    PmmFirst(m, next, end);
    if i > 0 {
      PmmSteps(m, next, end, i - 1);
    }
  }

  /** No entry of the span but the last is RAM. */
  predicate RamOnlyLast(m: seq<Word>, at: nat, end: nat)
    requires |m| == MEMORY_WORDS && end + 32 <= TWO32
    decreases if at < end then end - at else 0
  {
    at + 24 < end ==> RegionAt(m, at).kind != RAM && RamOnlyLast(m, at + 24, end)
  }

  lemma PmmFirst(m: seq<Word>, at: nat, end: nat)
    requires |m| == MEMORY_WORDS && end + 32 <= TWO32
    ensures var v := PmmVisits(m, at, end);
      if at < end then
        v != [] && v[0] == at && v == [at] + PmmVisits(m, at + (if RegionAt(m, at).kind == RAM then 32 else 24), end)
      else v == []
  {
    hide RegionAt;
  }

  lemma ConsSame(x: nat, s: seq<nat>, t: seq<nat>)
    ensures [x] + s == [x] + t <==> s == t
  {
    assert ([x] + s)[1..] == s && ([x] + t)[1..] == t;
  }

  /** pmm_init visits the entries that paging_init_full visits exactly when no entry
      but the last is RAM. */
  lemma {:induction false} PmmVisitsEntriesExactly(m: seq<Word>, at: nat, end: nat)
    requires |m| == MEMORY_WORDS && end + 32 <= TWO32
    ensures PmmVisits(m, at, end) == PagingVisits(at, end) <==> RamOnlyLast(m, at, end)
    decreases if at < end then end - at else 0
  {
    hide RegionAt, PmmVisits;
    PmmFirst(m, at, end);
    if at < end {
      var step := if RegionAt(m, at).kind == RAM then 32 else 24;
      ConsSame(at, PmmVisits(m, at + step, end), PagingVisits(at + 24, end));
      PmmFirst(m, at + step, end);
      if step == 24 {
        PmmVisitsEntriesExactly(m, at + 24, end);
      }
    }
  }

  /** Memory holds the map at addr. */
  predicate MapAt(m: seq<Word>, addr: nat, rs: Map) {
    && |m| == MEMORY_WORDS && addr % 4 == 0 && addr + 24 * |rs| + 32 <= TWO32
    && forall i :: 0 <= i < |rs| ==> RegionAt(m, addr + 24 * i) == rs[i]
  }

  lemma {:induction false} RamOnlyLastOfMap(m: seq<Word>, addr: nat, rs: Map, i: nat)
    requires MapAt(m, addr, rs) && i <= |rs|
    ensures RamOnlyLast(m, addr + 24 * i, addr + 24 * |rs|) <==>
      forall j :: i <= j < |rs| - 1 ==> rs[j].kind != 1
    decreases |rs| - i
  {
    hide RegionAt, EncodeMap;
    if i < |rs| {
      assert RegionAt(m, addr + 24 * i) == rs[i];
      RamOnlyLastOfMap(m, addr, rs, i + 1);
      assert addr + 24 * i + 24 == addr + 24 * (i + 1);
    }
  }

  /** Over a map in memory the loop of paging decodes its regions. */
  lemma {:induction false} DecodedOfMap(m: seq<Word>, addr: nat, rs: Map, i: nat)
    requires MapAt(m, addr, rs) && i <= |rs|
    ensures Decoded(m, addr + 24 * i, addr + 24 * |rs|) == rs[i..]
    decreases |rs| - i
  {
    hide RegionAt, EncodeMap, Decoded;
    DecodedFirst(m, addr + 24 * i, addr + 24 * |rs|);
    if i < |rs| {
      assert RegionAt(m, addr + 24 * i) == rs[i];
      DecodedOfMap(m, addr, rs, i + 1);
      assert addr + 24 * i + 24 == addr + 24 * (i + 1);
      assert rs[i..] == [rs[i]] + rs[i + 1..];
      hide MapAt;
    }
  }

  /** So does the loop of pmm_init, if no region but the last is RAM. */
  lemma {:induction false} VisitedOfMap(m: seq<Word>, addr: nat, rs: Map, i: nat)
    requires MapAt(m, addr, rs) && i <= |rs| && forall j :: 0 <= j < |rs| - 1 ==> rs[j].kind != 1
    ensures Visited(m, addr + 24 * i, addr + 24 * |rs|) == rs[i..]
    decreases |rs| - i
  {
    hide RegionAt, EncodeMap, Visited;
    var end := addr + 24 * |rs|;
    VisitedFirst(m, addr + 24 * i, end);
    if i < |rs| {
      assert RegionAt(m, addr + 24 * i) == rs[i];
      VisitedOfMap(m, addr, rs, i + 1);
      VisitedFirst(m, end, end);
      VisitedFirst(m, addr + 24 * i + 32, end);
      assert addr + 24 * i + 24 == addr + 24 * (i + 1);
      assert rs[i..] == [rs[i]] + rs[i + 1..];
      hide MapAt;
    }
  }

  /** For a map in memory: exactly when no region but the last is RAM. */
  lemma PmmVisitsOfMap(m: seq<Word>, addr: nat, rs: Map)
    requires MapAt(m, addr, rs)
    ensures PmmVisits(m, addr, addr + 24 * |rs|) == PagingVisits(addr, addr + 24 * |rs|) <==>
      forall j :: 0 <= j < |rs| - 1 ==> rs[j].kind != 1
  {
    hide PmmVisits, PagingVisits, RamOnlyLast, EncodeMap;
    PmmVisitsEntriesExactly(m, addr, addr + 24 * |rs|);
    RamOnlyLastOfMap(m, addr, rs, 0);
  }

  /** Every map can be in memory, those with RAM before the last region included. */
  lemma MapFits(addr: nat, rs: Map)
    requires addr % 4 == 0 && addr + 24 * |rs| + 32 <= TWO32
    ensures exists m :: MapAt(m, addr, rs)
  {
    var w, e := addr / 4, EncodeMap(rs);
    var m: seq<Word> := seq(w, _ => 0) + e + seq(MEMORY_WORDS - w - |e|, _ => 0);
    assert m[w..w + |e|] == e;
    forall i | 0 <= i < |rs|
      ensures RegionAt(m, addr + 24 * i) == rs[i]
    {
      MapRoundTrip(m, addr, rs, i);
    }
    assert MapAt(m, addr, rs);
  }
}
