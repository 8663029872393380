/** The HID enumeration cursors: `HIDAPI_Enumerate` takes a snapshot of the
    matching HID devices and chains a cursor over it into the global cursor
    list; `HIDAPI_EnumerateNext` hands out one entry at a time,
    `HIDAPI_EnumerateRewind` starts over and `HIDAPI_EnumerateFree` unlinks
    and releases a cursor. The device snapshot (`hid_enumerate`) and the
    extra report information read by opening a device are inputs. */
module HidEnum {
  import opened Base
  import opened Registry
  import Lifecycle

  /** The extra information `HIDAPI_EnumerateNext` reads from an opened
      device: the report lengths and the usage. */
  datatype ExInfo = ExInfo(outputReportLength: nat, inputReportLength: nat, usagePage: nat, usage: nat)

  /** One entry handed out by `HIDAPI_EnumerateNext`; `ex` is present only
      when extra information was asked for and the device could be opened. */
  datatype Entry = Entry(info: HidInfo, ex: Option<ExInfo>)

  /** `HIDAPI_Enumerate`: `devs` is what the HID library enumerates for the
      vendor and product ids (and initialises the library doing so); when
      the cursor cannot be allocated nothing is kept and no handle is
      returned. Otherwise a fresh cursor at the first entry is put at the
      head of the chain. */
  function Enumerate(ctx: Ctx, devs: seq<HidInfo>, exInfo: int, allocOk: bool): (r: (Ctx, Option<EnumId>))
    requires Inv(ctx)
    ensures Inv(r.0)
    ensures !allocOk ==> r.1 == None && r.0 == ctx.(hidActive := true)
    ensures allocOk ==>
              && r.1.Some? && r.1.value !in ctx.cursors
              && r.0.enums == [r.1.value] + ctx.enums
              && r.0.cursors == ctx.cursors[r.1.value := Cursor(devs, 0, exInfo != 0)]
    ensures r.0.devList == ctx.devList && r.0.devices == ctx.devices && r.0.devInfoList == ctx.devInfoList
  {
    if !allocOk then (ctx.(hidActive := true), None)
    else
      var e := ctx.nextEnum;
      var c := ctx.(enums := [e] + ctx.enums, cursors := ctx.cursors[e := Cursor(devs, 0, exInfo != 0)],
                    nextEnum := e + 1, hidActive := true);
      assert Distinct(c.enums) by {
        forall i, j | 0 <= i < j < |c.enums|
          ensures c.enums[i] != c.enums[j]
        {
          if i == 0 {
            assert c.enums[j] == ctx.enums[j - 1];
            assert ctx.enums[j - 1] in ctx.cursors;
          } else {
            assert c.enums[i] == ctx.enums[i - 1] && c.enums[j] == ctx.enums[j - 1];
          }
        }
      }
      (c, Some(e))
  }

  /** The cursor behind a handle, if it is live and has entries left. */
  predicate HasNext(ctx: Ctx, h: Option<EnumId>)
  {
    h.Some? && h.value in ctx.cursors && ctx.cursors[h.value].pos < |ctx.cursors[h.value].head|
  }

  /** `HIDAPI_EnumerateNext`: hands out the entry under the cursor and moves
      the cursor past it, answering 1; a null handle, an empty snapshot or
      an exhausted cursor answer 0. `probe` is what opening the entry's
      device gives when extra information is asked for. The handle must be
      null or a live cursor: the call dereferences it. */
  function Next(ctx: Ctx, h: Option<EnumId>, probe: Option<ExInfo>): (r: (Ctx, int, Option<Entry>))
    requires h.Some? ==> h.value in ctx.cursors
    ensures Inv(ctx) ==> Inv(r.0)
    ensures r.1 == 1 <==> HasNext(ctx, h)
    ensures r.1 == 0 <==> !HasNext(ctx, h)
    ensures !HasNext(ctx, h) ==> r.0 == ctx && r.2 == None
    ensures HasNext(ctx, h) ==>
              var cur := ctx.cursors[h.value];
              && r.2 == Some(Entry(cur.head[cur.pos], if cur.exInfo then probe else None))
              && r.0 == ctx.(cursors := ctx.cursors[h.value := cur.(pos := cur.pos + 1)])
  {
    if h.None? then (ctx, 0, None)
    else
      var cur := ctx.cursors[h.value];
      if cur.head == [] || cur.pos >= |cur.head| then (ctx, 0, None)
      else
        var entry := Entry(cur.head[cur.pos], if cur.exInfo then probe else None);
        (ctx.(cursors := ctx.cursors[h.value := cur.(pos := cur.pos + 1)]), 1, Some(entry))
  }

  /** `HIDAPI_EnumerateRewind`: puts the cursor back at the first entry and
      answers 1; a null handle or an empty snapshot answer 0. */
  function Rewind(ctx: Ctx, h: Option<EnumId>): (r: (Ctx, int))
    requires Inv(ctx) && (h.Some? ==> h.value in ctx.cursors)
    ensures Inv(r.0)
    ensures r.1 == 1 <==> h.Some? && ctx.cursors[h.value].head != []
    ensures r.1 == 0 <==> !(h.Some? && ctx.cursors[h.value].head != [])
    ensures r.1 == 0 ==> r.0 == ctx
    ensures r.1 == 1 ==>
              r.0.cursors == ctx.cursors[h.value := ctx.cursors[h.value].(pos := 0)] &&
              r.0 == ctx.(cursors := r.0.cursors)
  {
    if h.None? || ctx.cursors[h.value].head == [] then (ctx, 0)
    else (ctx.(cursors := ctx.cursors[h.value := ctx.cursors[h.value].(pos := 0)]), 1)
  }

  /** `HIDAPI_EnumerateFree`: unlinks the cursor from the chain and releases
      it, answering 1; a handle not on the chain answers 0 and changes
      nothing. The HID library is left initialised either way. */
  function Free(ctx: Ctx, h: Option<EnumId>): (r: (Ctx, int))
    requires Inv(ctx)
    ensures Inv(r.0)
    ensures r.1 == 1 <==> h.Some? && h.value in ctx.enums
    ensures r.1 == 0 <==> !(h.Some? && h.value in ctx.enums)
    ensures r.1 == 0 ==> r.0 == ctx
    ensures r.1 == 1 ==>
              && (forall e :: e in r.0.enums <==> e in ctx.enums && e != h.value)
              && r.0.cursors == ctx.cursors - {h.value}
              && r.0.hidActive == ctx.hidActive
  {
    if h.None? || h.value !in ctx.enums then (ctx, 0)
    else
      RemoveKeepsDistinct(ctx.enums, h.value);
      (ctx.(enums := Remove(ctx.enums, h.value), cursors := ctx.cursors - {h.value}), 1)
  }

  // ----- Walking a cursor -----

  /** The entries `n` successive `Next` calls hand out (without extra
      information), with the state they leave. */
  function Walk(ctx: Ctx, e: EnumId, n: nat): (r: (Ctx, seq<HidInfo>))
    requires e in ctx.cursors
    ensures e in r.0.cursors
    decreases n
  {
    if n == 0 then (ctx, [])
    else
      var (c, res, entry) := Next(ctx, Some(e), None);
      var (c', rest) := Walk(c, e, n - 1);
      (c', (if res == 1 then [entry.value.info] else []) + rest)
  }

  /** Walking `n` steps from the cursor's position hands out the next `n`
      entries of the snapshot, in order, and leaves the cursor `n` further
      on. */
  lemma {:induction false} WalkHandsOutInOrder(ctx: Ctx, e: EnumId, n: nat)
    requires e in ctx.cursors
    requires ctx.cursors[e].pos + n <= |ctx.cursors[e].head|
    ensures var cur := ctx.cursors[e];
            var (c, got) := Walk(ctx, e, n);
            && got == cur.head[cur.pos..cur.pos + n]
            && c.cursors[e] == cur.(pos := cur.pos + n)
    decreases n
  {
    var cur := ctx.cursors[e];
    if n > 0 {
      NextStep(ctx, e);
      var (c, res, entry) := Next(ctx, Some(e), None);
      WalkHandsOutInOrder(c, e, n - 1);
      var (c', rest) := Walk(c, e, n - 1);
      assert rest == cur.head[cur.pos + 1..cur.pos + n];
      SliceSplitsFirst(cur.head, cur.pos, cur.pos + n);
    }
  }

  /** A non-empty slice is its first element followed by the rest. */
  lemma SliceSplitsFirst<T>(s: seq<T>, i: nat, j: nat)
    requires i < j <= |s|
    ensures s[i..j] == [s[i]] + s[i + 1..j]
  {
    assert s[i..j][1..] == s[i + 1..j];
  }

  /** One step of a cursor with entries left. */
  lemma NextStep(ctx: Ctx, e: EnumId)
    requires e in ctx.cursors && ctx.cursors[e].pos < |ctx.cursors[e].head|
    ensures var cur := ctx.cursors[e];
            var (c, res, entry) := Next(ctx, Some(e), None);
            && res == 1 && entry.value.info == cur.head[cur.pos]
            && e in c.cursors && c.cursors[e] == cur.(pos := cur.pos + 1)
  {
    assert HasNext(ctx, Some(e));
  }

  /** A fresh cursor walked to its end hands out the snapshot exactly, and
      the next call answers 0. */
  lemma EnumerateThenWalk(ctx: Ctx, devs: seq<HidInfo>, exInfo: int)
    requires Inv(ctx)
    ensures var (c, h) := Enumerate(ctx, devs, exInfo, true);
            var (c', got) := Walk(c, h.value, |devs|);
            && got == devs
            && Next(c', h, None).1 == 0
  {
    var (c, h) := Enumerate(ctx, devs, exInfo, true);
    WalkHandsOutInOrder(c, h.value, |devs|);
    assert devs[0..|devs|] == devs;
  }

  /** After a rewind the cursor hands out the first entry again. */
  lemma RewindRestarts(ctx: Ctx, e: EnumId, probe: Option<ExInfo>)
    requires Inv(ctx) && e in ctx.cursors && ctx.cursors[e].head != []
    ensures var (c, res) := Rewind(ctx, Some(e));
            && res == 1
            && Next(c, Some(e), probe).2.value.info == ctx.cursors[e].head[0]
  {
  }

  /** Releasing a freshly enumerated cursor gives back the chain as it was;
      releasing it a second time answers 0. */
  lemma EnumerateThenFree(ctx: Ctx, devs: seq<HidInfo>, exInfo: int)
    requires Inv(ctx)
    ensures var (c, h) := Enumerate(ctx, devs, exInfo, true);
            var (c', res) := Free(c, h);
            && res == 1
            && c'.enums == ctx.enums && c'.cursors == ctx.cursors
            && c'.devList == ctx.devList && c'.devices == ctx.devices
            && Free(c', h).1 == 0
  {
    var (c, h) := Enumerate(ctx, devs, exInfo, true);
    var e := h.value;
    assert e !in ctx.enums && e !in ctx.cursors;
    var (c', res) := Free(c, h);
    assert c' == c.(enums := Remove([e] + ctx.enums, e), cursors := ctx.cursors[e := Cursor(devs, 0, exInfo != 0)] - {e});
    UnchainFresh(ctx.enums, ctx.cursors, e, Cursor(devs, 0, exInfo != 0));
  }

  /** Unlinking a cursor just put at the head of a chain that lacked it
      gives the chain and the cursor table back. */
  lemma UnchainFresh(enums: seq<EnumId>, cursors: map<EnumId, Cursor>, e: EnumId, cur: Cursor)
    requires e !in enums && e !in cursors
    ensures Remove([e] + enums, e) == enums
    ensures cursors[e := cur] - {e} == cursors
  {
    assert ([e] + enums)[1..] == enums;
    Lifecycle.RemoveAbsent(enums, e);
  }

  /** The library stays initialised while a cursor is held: `LibCleanup`
      refuses to shut it down. */
  lemma HeldCursorBlocksCleanup(ctx: Ctx, devs: seq<HidInfo>, exInfo: int)
    requires Inv(ctx)
    ensures var (c, _) := Enumerate(ctx, devs, exInfo, true);
            !LibCleanup(c).1 && LibCleanup(c).0.hidActive
  {
  }
}
