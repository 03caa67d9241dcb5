/**
 The message masks of router/masks.c: one 32-bit word for each subsystem
 identifier (SSID) in 25 windows. For requests that stay within a window, or are
 in none, the table is a map. What any other request does to the entry it
 selects, and when that leaves the buffer smaller than what is read from it, is
 stated beside it.
 */
module MsgMasks {
  import opened Bytes
  import opened Memory

  const MAX_SSID_PER_RANGE: nat := 200

  /** struct diag_ssid_range_t */
  datatype SsidRange = SsidRange(first: uint16, last: uint16)

  /** The windows of router/masks.h. */
  function SsidWindows(): (windows: seq<SsidRange>) {
    [SsidRange(0, 120), SsidRange(500, 506), SsidRange(1000, 1007), SsidRange(2000, 2008), SsidRange(3000, 3014),
     SsidRange(4000, 4010), SsidRange(4500, 4573), SsidRange(4600, 4615), SsidRange(5000, 5033), SsidRange(5500, 5516),
     SsidRange(6000, 6081), SsidRange(6500, 6521), SsidRange(7000, 7003), SsidRange(7100, 7111), SsidRange(7200, 7201),
     SsidRange(8000, 8000), SsidRange(8500, 8529), SsidRange(9000, 9008), SsidRange(9500, 9510), SsidRange(10200, 10210),
     SsidRange(10251, 10255), SsidRange(10300, 10300), SsidRange(10350, 10377), SsidRange(10400, 10416), SsidRange(0xC000, 0xC063)]
  }

  /** Windows narrower than 200, in ascending order and apart. */
  predicate GoodWindows(windows: seq<SsidRange>) {
    && (forall i {:trigger windows[i]} | 0 <= i < |windows| ::
          windows[i].first <= windows[i].last < windows[i].first + MAX_SSID_PER_RANGE - 1)
    && (forall i, j {:trigger windows[i], windows[j]} | 0 <= i < j < |windows| :: windows[i].last < windows[j].first)
  }

  /** A window narrower than 200 that ends before the next one starts. */
  predicate GoodWindow(windows: seq<SsidRange>, i: nat)
    requires i < |windows|
  {
    && windows[i].first <= windows[i].last < windows[i].first + MAX_SSID_PER_RANGE - 1
    && (i + 1 < |windows| ==> windows[i].last < windows[i + 1].first)
  }

  lemma SsidWindowsGood()
    ensures |SsidWindows()| == 25 && GoodWindows(SsidWindows())
  {
    var windows := SsidWindows();
    assert forall i | 0 <= i < |windows| :: GoodWindow(windows, i);
    EachGood(windows);
  }

  lemma EachGood(windows: seq<SsidRange>)
    requires forall i | 0 <= i < |windows| :: GoodWindow(windows, i)
    ensures GoodWindows(windows)
  {
    forall i, j | 0 <= i < j < |windows| ensures windows[i].last < windows[j].first {
      Apart(windows, i, j);
    }
    forall i | 0 <= i < |windows| ensures windows[i].first <= windows[i].last < windows[i].first + MAX_SSID_PER_RANGE - 1 {
      assert GoodWindow(windows, i);
    }
  }

  lemma {:induction false} Apart(windows: seq<SsidRange>, i: nat, j: nat)
    requires i < j < |windows| && forall k | 0 <= k < |windows| :: GoodWindow(windows, k)
    ensures windows[i].last < windows[j].first
    decreases j
  {
    assert GoodWindow(windows, j - 1);
    if i < j - 1 { Apart(windows, i, j - 1); }
  }

  predicate Within(w: SsidRange, ssid: nat) { w.first <= ssid <= w.last }

  /** The window of an SSID, from the i-th on. */
  function WindowFrom(windows: seq<SsidRange>, ssid: nat, i: nat): (w: Option<nat>)
    requires i <= |windows|
    ensures w.Some? ==> i <= w.value < |windows| && Within(windows[w.value], ssid)
    ensures w.None? ==> forall j | i <= j < |windows| :: !Within(windows[j], ssid)
    decreases |windows| - i
  {
    if i == |windows| then None
    else if Within(windows[i], ssid) then Some(i)
    else WindowFrom(windows, ssid, i + 1)
  }

  function Window(windows: seq<SsidRange>, ssid: nat): (w: Option<nat>)
    ensures w.Some? ==> w.value < |windows| && Within(windows[w.value], ssid)
  {
    WindowFrom(windows, ssid, 0)
  }

  lemma WindowUnique(windows: seq<SsidRange>, ssid: nat, i: nat)
    requires GoodWindows(windows) && i < |windows| && Within(windows[i], ssid)
    ensures Window(windows, ssid) == Some(i)
  {
    var w := Window(windows, ssid);
    assert w.Some?;
  }

  // ---------------------------------------------------------------- the table

  datatype MsgItem = MsgItem(ssidFirst: uint32, ssidLast: uint32, ssidLastTools: uint32,
                             range: nat, rangeTools: nat, ptr: seq<Cell<uint32>>)

  predicate GoodItem(item: MsgItem, w: SsidRange) {
    && item.ssidFirst == w.first && item.ssidLast == item.ssidLastTools == w.last
    && item.range == item.rangeTools == |item.ptr| == MAX_SSID_PER_RANGE && AllWritten(item.ptr)
  }

  predicate GoodTable(table: seq<MsgItem>, windows: seq<SsidRange>) {
    && GoodWindows(windows) && |table| == |windows|
    && forall i {:trigger table[i]} {:trigger windows[i]} | 0 <= i < |table| :: GoodItem(table[i], windows[i])
  }

  function ItemWord(item: MsgItem, w: SsidRange, ssid: nat): uint32
    requires GoodItem(item, w) && Within(w, ssid) && w.last < w.first + MAX_SSID_PER_RANGE
  {
    item.ptr[ssid - w.first].value
  }

  /** The map that the table stands for: the word of an SSID, if it is in a window. */
  function WordOf(table: seq<MsgItem>, windows: seq<SsidRange>, ssid: nat): Option<uint32>
    requires GoodTable(table, windows)
  {
    match Window(windows, ssid)
    case None => None
    case Some(i) => Some(ItemWord(table[i], windows[i], ssid))
  }

  /** The words of the first n SSIDs of a window. */
  function WindowWords(item: MsgItem, w: SsidRange, n: nat): (words: seq<uint32>)
    requires GoodItem(item, w) && n <= MAX_SSID_PER_RANGE
    ensures |words| == n
  {
    Values(item.ptr)[..n]
  }

  lemma WordIs(table: seq<MsgItem>, windows: seq<SsidRange>, i: nat, n: nat, k: nat)
    requires GoodTable(table, windows) && i < |windows| && k < n <= windows[i].last - windows[i].first + 1
    ensures n <= MAX_SSID_PER_RANGE
    ensures WordOf(table, windows, windows[i].first + k) == Some(WindowWords(table[i], windows[i], n)[k])
  {
    WindowUnique(windows, windows[i].first + k, i);
    assert Within(windows[i], windows[i].first + k);
  }

  // ---------------------------------------------------------------- what a get request sees

  /** The test of a get request: an entry reaches as far as requests have pushed it. */
  predicate Covers(item: MsgItem, ssid: nat) { item.ssidFirst <= ssid <= item.ssidLastTools }

  /** The first entry, from the i-th on, that a get request for an SSID takes. */
  function FindFrom(table: seq<MsgItem>, ssid: nat, i: nat): (found: Option<nat>)
    requires i <= |table|
    ensures found.Some? ==> i <= found.value < |table| && Covers(table[found.value], ssid)
    ensures forall j | i <= j < (if found.Some? then found.value else |table|) :: !Covers(table[j], ssid)
    decreases |table| - i
  {
    if i == |table| then None
    else if Covers(table[i], ssid) then Some(i)
    else FindFrom(table, ssid, i + 1)
  }

  function Find(table: seq<MsgItem>, ssid: nat): Option<nat> { FindFrom(table, ssid, 0) }

  /** A get request copies range words from the buffer; this many must be there. */
  predicate Readable(item: MsgItem) { item.range <= |item.ptr| }

  /** A get request for an SSID finds its window and no other, and can read all that it copies. */
  predicate AnswersFor(table: seq<MsgItem>, windows: seq<SsidRange>, ssid: uint16) {
    Find(table, ssid) == Window(windows, ssid) && (Find(table, ssid).Some? ==> Readable(table[Find(table, ssid).value]))
  }

  /** Get requests for all SSIDs see the windows. */
  ghost predicate AnswersAsMap(table: seq<MsgItem>, windows: seq<SsidRange>) {
    forall ssid: uint16 {:trigger AnswersFor(table, windows, ssid)} :: AnswersFor(table, windows, ssid)
  }

  lemma GoodTableAnswers(table: seq<MsgItem>, windows: seq<SsidRange>)
    requires GoodTable(table, windows)
    ensures AnswersAsMap(table, windows)
  {
    forall ssid: uint16 ensures AnswersFor(table, windows, ssid) {
      FindIsWindow(table, windows, ssid, 0);
    }
  }

  lemma {:induction false} FindIsWindow(table: seq<MsgItem>, windows: seq<SsidRange>, ssid: nat, i: nat)
    requires GoodTable(table, windows) && i <= |table|
    ensures FindFrom(table, ssid, i) == WindowFrom(windows, ssid, i)
    decreases |table| - i
  {
    if i < |table| { FindIsWindow(table, windows, ssid, i + 1); }
  }

  /** memset() takes the low octet and repeats it in every octet of a word. */
  function Repeated(octet: uint8): uint32 { octet * 0x101_0101 }

  /** The search that a set request does: a window reaches up to the next one, and at most 200 past its start. */
  predicate Selected(windows: seq<SsidRange>, i: nat, first: uint16)
    requires i < |windows|
  {
    && windows[i].first <= first <= windows[i].first + MAX_SSID_PER_RANGE
    && (i + 1 < |windows| ==> first < windows[i + 1].first)
  }

  /** The first window, from the i-th on, that a set request selects. */
  function SelectFrom(windows: seq<SsidRange>, first: uint16, i: nat): (sel: Option<nat>)
    requires i <= |windows|
    ensures sel.Some? ==> i <= sel.value < |windows| && Selected(windows, sel.value, first)
    ensures sel.None? ==> forall j | i <= j < |windows| :: !Selected(windows, j, first)
    decreases |windows| - i
  {
    if i == |windows| then None
    else if Selected(windows, i, first) then Some(i)
    else SelectFrom(windows, first, i + 1)
  }

  /**
   A set request selects the window that starts last at or before its first
   SSID, if that is at most 200 after the start of the window, and none otherwise.
   */
  lemma SelectIsNearest(windows: seq<SsidRange>, first: uint16, i: nat)
    requires GoodWindows(windows) && i < |windows|
    ensures SelectFrom(windows, first, 0) == Some(i)
       <==> && windows[i].first <= first <= windows[i].first + 200
            && forall j | i < j < |windows| :: first < windows[j].first
  {
    var sel := SelectFrom(windows, first, 0);
    if windows[i].first <= first <= windows[i].first + 200 && forall j | i < j < |windows| :: first < windows[j].first {
      assert Selected(windows, i, first);
      SelectedOnce(windows, first, i, sel.value);
    }
    if sel == Some(i) {
      forall j | i < j < |windows| ensures first < windows[j].first {
        LaterStarts(windows, i, j);
      }
    }
  }

  /** Requests that stay within the window they select, and those that select none. */
  predicate InDomain(windows: seq<SsidRange>, first: uint16, last: uint16) {
    first <= last && forall i | 0 <= i < |windows| :: Selected(windows, i, first) ==> last <= windows[i].last
  }

  class MsgTable {
    var table: seq<MsgItem>
    var status: uint8
    ghost const windows: seq<SsidRange>

    ghost predicate Valid()
      reads this
    {
      GoodTable(table, windows)
    }

    ghost function Word(ssid: nat): Option<uint32>
      reads this
      requires Valid()
    {
      WordOf(table, windows, ssid)
    }

    /** diag_msg_mask_init(): every message is enabled at first. */
    constructor (ws: seq<SsidRange>)
      requires GoodWindows(ws)
      ensures Valid() && status == MASK_INVALID && windows == ws
      ensures forall ssid {:trigger Word(ssid)} :: Word(ssid) == if Window(ws, ssid).Some? then Some(Repeated(0xff)) else None
    {
      var items: seq<MsgItem> := [];
      var i := 0;
      while i < |ws|
        invariant i <= |ws| && |items| == i
        invariant forall j {:trigger items[j]} | 0 <= j < i :: GoodItem(items[j], ws[j]) && AllEqual(items[j].ptr, Repeated(0xff))
      {
        var range := ws[i].last - ws[i].first + 1;
        if range < MAX_SSID_PER_RANGE {
          range := MAX_SSID_PER_RANGE;
        }
        var ptr := Memset(Realloc([], range), Repeated(0xff), range);
        items := items + [MsgItem(ws[i].first, ws[i].last, ws[i].last, range, range, ptr)];
        i := i + 1;
      }
      table, status, windows := items, MASK_INVALID, ws;
    }

    /**
     diag_cmd_get_msg_mask(): the words of the whole window the request starts
     in, with the range of that window. The buffer holds 200 words, of which
     those past the window mean nothing.
     */
    method GetMsgMask(first: uint16, last: uint16) returns (got: Option<MsgWindow>)
      requires Valid()
      ensures got.Some? <==> Window(windows, first).Some?
      ensures Find(table, first) == Window(windows, first)
      ensures got.Some? ==> IsAnswer(table, windows, first, got.value)
    {
      var i := 0;
      FindIsWindow(table, windows, first, 0);
      while i < |table|
        invariant i <= |table| && Find(table, first) == FindFrom(table, first, i)
        invariant Find(table, first) == Window(windows, first) == WindowFrom(windows, first, i)
      {
        var item := table[i];
        if first < item.ssidFirst || first > item.ssidLastTools {
          i := i + 1;
          continue;
        }
        forall ssid: nat | Within(windows[i], ssid)
          ensures WordOf(table, windows, ssid) == Some(ItemWord(item, windows[i], ssid))
        {
          WindowUnique(windows, ssid, i);
        }
        return Some(MsgWindow(item.ssidFirst, item.ssidLast, Values(item.ptr)));
      }
      return None;
    }

    /**
     diag_cmd_set_msg_mask(), for any request. The entry it selects changes as
     AfterSet says. A request that stays within its window changes just the
     words of its SSIDs; no other leaves the table as a map.
     */
    method SetMsgMask(first: uint16, last: uint16, mask: seq<uint32>) returns (ret: int)
      requires Valid() && first <= last && last - first < |mask|
      modifies this
      ensures var sel := SelectFrom(windows, first, 0);
              if sel.None? then ret == 1 && table == old(table) && status == old(status)
              else
                && (ret == 0 <==> Accepted(old(table)[sel.value], first, last)) && (ret == 0 || ret == 1)
                && table == old(table)[sel.value := AfterSet(old(table)[sel.value], first, last, mask)]
                && status == if ret == 0 then MASK_VALID else old(status)
      ensures Valid() <==> InDomain(windows, first, last)
      ensures AnswersAsMap(table, windows) <==> InDomain(windows, first, last)
      ensures InDomain(windows, first, last) ==>
                && ret == (if Window(windows, first).Some? then 0 else 1)
                && (ret == 0 ==> WordsReplaced(old(table), table, windows, first, last, mask))
    {
      var i := 0;
      while i < |table|
        invariant i <= |table| && table == old(table) && status == old(status)
        invariant SelectFrom(windows, first, 0) == SelectFrom(windows, first, i)
      {
        var item := table[i];
        if first < item.ssidFirst || first > item.ssidFirst + MAX_SSID_PER_RANGE
           || (i < |table| - 1 && first >= table[i + 1].ssidFirst)
        {
          i := i + 1;
          continue;
        }
        SetSelected(table, windows, i, first, last, mask);
        SetAnswers(table, windows, i, first, last, mask);
        ret := StoreWords(i, first, last, mask);
        return;
      }
      SetUnselected(windows, first, last);
      GoodTableAnswers(table, windows);
      return 1;
    }

    /** What a set request does once it has found its entry. */
    method StoreWords(i: nat, first: uint16, last: uint16, mask: seq<uint32>) returns (ret: int)
      requires Valid() && i < |table| && windows[i].first <= first <= last && last - first < |mask|
      modifies this
      ensures table == old(table)[i := AfterSet(old(table)[i], first, last, mask)]
      ensures ret == if Accepted(old(table)[i], first, last) then 0 else 1
      ensures status == if ret == 0 then MASK_VALID else old(status)
    {
      var item, numMsgs := table[i], last - first + 1;
      if numMsgs > MAX_SSID_PER_RANGE {
        numMsgs := MAX_SSID_PER_RANGE;
        item := item.(rangeTools := MAX_SSID_PER_RANGE, ssidLastTools := item.ssidFirst + MAX_SSID_PER_RANGE);
      }
      if last > item.ssidLastTools {
        if numMsgs != MAX_SSID_PER_RANGE {
          item := item.(ssidLastTools := last);
        }
        item := item.(rangeTools := item.ssidLastTools - item.ssidFirst + 1);
        item := item.(ptr := Realloc(item.ptr, item.rangeTools));
      }
      var offset := first - item.ssidFirst;
      if offset + numMsgs > item.rangeTools {
        table := table[i := item];
        return 1;
      }
      table := table[i := item.(ptr := Memcpy(item.ptr, offset, mask[..numMsgs]))];
      status := MASK_VALID;
      return 0;
    }

    /**
     diag_cmd_set_all_msg_mask(). Every word becomes the low octet of the
     request four times over, while the status goes by the whole request.
     */
    method SetAllMsgMask(mask: uint32)
      requires Valid()
      modifies this
      ensures Valid() && status == if mask != 0 then MASK_ALL_ENABLED else MASK_ALL_DISABLED
      ensures forall ssid {:trigger Word(ssid)} ::
                Word(ssid) == if Window(windows, ssid).Some? then Some(Repeated(mask % 0x100)) else None
    {
      status := if mask != 0 then MASK_ALL_ENABLED else MASK_ALL_DISABLED;
      var i, word := 0, Repeated(mask % 0x100);
      while i < |table|
        invariant i <= |table| && Valid() && status == if mask != 0 then MASK_ALL_ENABLED else MASK_ALL_DISABLED
        invariant forall j {:trigger table[j]} | 0 <= j < i :: AllEqual(table[j].ptr, word)
      {
        table := table[i := table[i].(ptr := Memset(table[i].ptr, word, table[i].rangeTools))];
        i := i + 1;
      }
    }
  }

  /** A window as a get request returns it. */
  datatype MsgWindow = MsgWindow(first: uint32, last: uint32, mask: seq<uint32>)

  /** The range of the window that holds an SSID, with the word of each SSID in it. */
  ghost predicate IsAnswer(table: seq<MsgItem>, windows: seq<SsidRange>, first: uint16, got: MsgWindow)
    requires GoodTable(table, windows) && Window(windows, first).Some?
  {
    var w := windows[Window(windows, first).value];
    && got.first == w.first && got.last == w.last && w.last - w.first < |got.mask|
    && forall ssid: nat {:trigger WordOf(table, windows, ssid)} | Within(w, ssid) ::
         WordOf(table, windows, ssid) == Some(got.mask[ssid - w.first])
  }

  predicate AllEqual(cells: seq<Cell<uint32>>, word: uint32) {
    forall k | 0 <= k < |cells| :: cells[k] == Written(word)
  }

  lemma NotSelected(windows: seq<SsidRange>, i: nat, first: uint16)
    requires GoodWindows(windows) && i < |windows| && !Selected(windows, i, first)
    ensures !Within(windows[i], first)
  {
  }

  /** The words of just the SSIDs in a range are replaced. */
  ghost predicate WordsReplaced(was: seq<MsgItem>, now: seq<MsgItem>, windows: seq<SsidRange>, first: nat, last: nat, mask: seq<uint32>)
    requires GoodTable(was, windows) && GoodTable(now, windows) && last - first < |mask|
  {
    forall ssid: nat {:trigger WordOf(now, windows, ssid)} ::
      WordOf(now, windows, ssid)
      == if first <= ssid <= last then Some(mask[ssid - first]) else WordOf(was, windows, ssid)
  }

  // ---------------------------------------------------------------- one entry and one request

  /** How many words of a request are taken. */
  function Taken(first: nat, last: nat): nat
    requires first <= last
  {
    Min(last - first + 1, MAX_SSID_PER_RANGE)
  }

  /**
   The entry after a request was fitted to it: a longer request is cut to 200
   words, and one that ends past the entry has the buffer reallocated, to end
   where the request does unless that has exactly 200 words by now.
   */
  function Grown(item: MsgItem, first: uint16, last: uint16): MsgItem
    requires item.ssidFirst <= first <= last && item.ssidFirst <= item.ssidLastTools
  {
    var capped := if last - first + 1 <= MAX_SSID_PER_RANGE then item
                  else item.(rangeTools := MAX_SSID_PER_RANGE, ssidLastTools := item.ssidFirst + MAX_SSID_PER_RANGE);
    if last <= capped.ssidLastTools then capped
    else
      var lastTools := if Taken(first, last) == MAX_SSID_PER_RANGE then capped.ssidLastTools else last;
      var words := lastTools - item.ssidFirst + 1;
      capped.(ssidLastTools := lastTools, rangeTools := words, ptr := Realloc(item.ptr, words))
  }

  predicate Accepted(item: MsgItem, first: uint16, last: uint16)
    requires item.ssidFirst <= first <= last && item.ssidFirst <= item.ssidLastTools
  {
    first - item.ssidFirst + Taken(first, last) <= Grown(item, first, last).rangeTools
  }

  /** The entry after a request. The buffer is then as large as the words stored in it need. */
  function AfterSet(item: MsgItem, first: uint16, last: uint16, mask: seq<uint32>): (now: MsgItem)
    requires item.rangeTools == |item.ptr| == MAX_SSID_PER_RANGE
    requires item.ssidFirst <= first <= last && item.ssidFirst <= item.ssidLastTools && last - first < |mask|
    ensures |now.ptr| == now.rangeTools
  {
    var grown := Grown(item, first, last);
    if Accepted(item, first, last)
    then grown.(ptr := Memcpy(grown.ptr, first - item.ssidFirst, mask[..Taken(first, last)]))
    else grown
  }

  /**
   After a request to an entry whose window is narrower than 200, the buffer
   still holds what is read from it exactly when the request ends within the
   window, or ends 199 or more past the start of the window and does not have
   exactly 200 words.
   */
  lemma ReadableAfterSetIff(item: MsgItem, w: SsidRange, first: uint16, last: uint16, mask: seq<uint32>)
    requires GoodItem(item, w) && w.first <= w.last < w.first + MAX_SSID_PER_RANGE - 1
    requires w.first <= first <= last && last - first < |mask|
    ensures Readable(AfterSet(item, first, last, mask))
       <==> last <= w.last || (last >= w.first + MAX_SSID_PER_RANGE - 1 && last - first + 1 != MAX_SSID_PER_RANGE)
  {
  }

  /**
   When a request is accepted: if it ends within the window, has fewer than 200
   words, or has more and starts at the window or right after its start. Just
   one of exactly 200 words that ends after the window, and a longer one that
   starts later, are refused.
   */
  lemma AcceptedIff(item: MsgItem, w: SsidRange, first: uint16, last: uint16)
    requires GoodItem(item, w) && w.first <= w.last < w.first + MAX_SSID_PER_RANGE - 1 && w.first <= first <= last
    ensures Accepted(item, first, last)
       <==> last <= w.last || last - first + 1 < 200 || (last - first + 1 > 200 && first <= w.first + 1)
  {
  }

  /** The words of an accepted request are in the buffer, and the words before them are as they were. */
  lemma AcceptedIsStored(item: MsgItem, w: SsidRange, first: uint16, last: uint16, mask: seq<uint32>)
    requires GoodItem(item, w) && w.first <= w.last && w.first <= first <= last && last - first < |mask|
    requires Accepted(item, first, last)
    ensures var ptr, offset := AfterSet(item, first, last, mask).ptr, first - w.first;
            && offset + Taken(first, last) <= |ptr|
            && (forall k | 0 <= k < Taken(first, last) :: ptr[offset + k] == Written(mask[k]))
            && (forall k | 0 <= k < offset && k < MAX_SSID_PER_RANGE :: ptr[k] == item.ptr[k])
  {
    MemcpyAt(Grown(item, first, last).ptr, first - w.first, mask[..Taken(first, last)]);
  }

  /**
   Two requests to the first window, 0 to 120, that cut its buffer of 200
   words: one of exactly 200 words, which is refused, and one that ends at 130,
   which is accepted.
   */
  lemma BufferCut(item: MsgItem, mask: seq<uint32>)
    requires GoodItem(item, SsidRange(0, 120)) && |mask| == 200
    ensures !Accepted(item, 0, 199) && |AfterSet(item, 0, 199, mask).ptr| == 121
    ensures Accepted(item, 0, 130) && |AfterSet(item, 0, 130, mask).ptr| == 131
    ensures item.range == 200
  {
  }

  // ---------------------------------------------------------------- requests within a window

  function Stored(item: MsgItem, w: SsidRange, first: nat, last: nat, mask: seq<uint32>): (now: MsgItem)
    requires GoodItem(item, w) && Within(w, first) && Within(w, last) && w.last < w.first + MAX_SSID_PER_RANGE
    requires first <= last && last - first < |mask|
    ensures GoodItem(now, w)
    ensures forall ssid: nat {:trigger ItemWord(now, w, ssid)} | Within(w, ssid) ::
      ItemWord(now, w, ssid) == if first <= ssid <= last then mask[ssid - first] else ItemWord(item, w, ssid)
  {
    MemcpyAt(item.ptr, first - w.first, mask[..last - first + 1]);
    item.(ptr := Memcpy(item.ptr, first - w.first, mask[..last - first + 1]))
  }

  lemma StoredIsAfterSet(item: MsgItem, w: SsidRange, first: uint16, last: uint16, mask: seq<uint32>)
    requires GoodItem(item, w) && Within(w, first) && Within(w, last) && w.last < w.first + MAX_SSID_PER_RANGE - 1
    requires first <= last && last - first < |mask|
    ensures Accepted(item, first, last) && AfterSet(item, first, last, mask) == Stored(item, w, first, last, mask)
  {
  }

  /** A request past its window leaves an entry that no longer is as the map has it. */
  lemma PastWindow(item: MsgItem, w: SsidRange, first: uint16, last: uint16, mask: seq<uint32>)
    requires GoodItem(item, w) && w.first <= w.last < w.first + MAX_SSID_PER_RANGE - 1
    requires w.first <= first <= last && w.last < last && last - first < |mask|
    ensures !GoodItem(AfterSet(item, first, last, mask), w)
  {
  }

  /** Of two windows only the later one can be selected, so a request selects at most one. */
  lemma SelectedOnce(windows: seq<SsidRange>, first: uint16, i: nat, j: nat)
    requires GoodWindows(windows) && i < |windows| && j < |windows|
    requires Selected(windows, i, first) && Selected(windows, j, first)
    ensures i == j
  {
    if i < j { LaterStarts(windows, i, j); }
    if j < i { LaterStarts(windows, j, i); }
  }

  lemma LaterStarts(windows: seq<SsidRange>, i: nat, j: nat)
    requires GoodWindows(windows) && i < j < |windows|
    ensures windows[i + 1].first <= windows[j].first
  {
    if i + 1 < j {
      assert windows[i + 1].last < windows[j].first;
    }
  }

  lemma SetUnselected(windows: seq<SsidRange>, first: uint16, last: uint16)
    requires GoodWindows(windows) && first <= last && SelectFrom(windows, first, 0).None?
    ensures InDomain(windows, first, last) && Window(windows, first).None?
  {
    if Window(windows, first).Some? {
      NotSelected(windows, Window(windows, first).value, first);
    }
  }

  /** A request that selects an entry keeps the table a map exactly when it stays within the window. */
  lemma SetSelected(was: seq<MsgItem>, windows: seq<SsidRange>, i: nat, first: uint16, last: uint16, mask: seq<uint32>)
    requires GoodTable(was, windows) && i < |was| && Selected(windows, i, first)
    requires first <= last && last - first < |mask|
    ensures var now := was[i := AfterSet(was[i], first, last, mask)];
            && (InDomain(windows, first, last) <==> last <= windows[i].last)
            && (GoodTable(now, windows) <==> last <= windows[i].last)
            && (last <= windows[i].last ==>
                 && Accepted(was[i], first, last) && Window(windows, first) == Some(i)
                 && WordsReplaced(was, now, windows, first, last, mask))
  {
    var now := was[i := AfterSet(was[i], first, last, mask)];
    forall j | 0 <= j < |windows| && Selected(windows, j, first) ensures j == i {
      SelectedOnce(windows, first, i, j);
    }
    if last <= windows[i].last {
      StoredIsAfterSet(was[i], windows[i], first, last, mask);
      WordsSet(was, windows, i, first, last, mask);
      WindowUnique(windows, first, i);
    } else {
      PastWindow(was[i], windows[i], first, last, mask);
      assert now[i] == AfterSet(was[i], first, last, mask);
    }
  }

  /** A request past its window shows: an SSID after the window is answered from it, or its words can no longer be read. */
  lemma PastWindowShows(was: seq<MsgItem>, windows: seq<SsidRange>, i: nat, first: uint16, last: uint16, mask: seq<uint32>)
    requires GoodTable(was, windows) && i < |was| && Selected(windows, i, first)
    requires first <= last && windows[i].last < last && last - first < |mask|
    ensures var now := was[i := AfterSet(was[i], first, last, mask)];
            !AnswersFor(now, windows, windows[i].first) || !AnswersFor(now, windows, windows[i].last + 1)
  {
    var w, now := windows[i], was[i := AfterSet(was[i], first, last, mask)];
    if Readable(now[i]) {
      assert Covers(now[i], w.last + 1);
      assert Find(now, w.last + 1).value <= i;
    } else {
      WindowUnique(windows, w.first, i);
    }
  }

  /** A request that selects an entry leaves a table that answers by the windows exactly when it stays within its own. */
  lemma SetAnswers(was: seq<MsgItem>, windows: seq<SsidRange>, i: nat, first: uint16, last: uint16, mask: seq<uint32>)
    requires GoodTable(was, windows) && i < |was| && Selected(windows, i, first)
    requires first <= last && last - first < |mask|
    ensures AnswersAsMap(was[i := AfterSet(was[i], first, last, mask)], windows) <==> last <= windows[i].last
  {
    var now := was[i := AfterSet(was[i], first, last, mask)];
    if last <= windows[i].last {
      SetSelected(was, windows, i, first, last, mask);
      GoodTableAnswers(now, windows);
    } else {
      PastWindowShows(was, windows, i, first, last, mask);
    }
  }

  /** Words written into one window change the words of just those SSIDs. */
  lemma WordsSet(was: seq<MsgItem>, windows: seq<SsidRange>, i: nat, first: nat, last: nat, mask: seq<uint32>)
    requires GoodTable(was, windows) && i < |was| && Within(windows[i], first) && Within(windows[i], last)
    requires first <= last && last - first < |mask|
    ensures var now := was[i := Stored(was[i], windows[i], first, last, mask)];
            GoodTable(now, windows) && WordsReplaced(was, now, windows, first, last, mask)
  {
    var now := was[i := Stored(was[i], windows[i], first, last, mask)];
    assert GoodTable(now, windows);
    forall ssid: nat
      ensures WordOf(now, windows, ssid)
           == if first <= ssid <= last then Some(mask[ssid - first]) else WordOf(was, windows, ssid)
    {
      if Within(windows[i], ssid) {
        WindowUnique(windows, ssid, i);
      } else {
        ElsewhereSame(was, now, windows, i, ssid);
      }
    }
  }

  lemma ElsewhereSame(was: seq<MsgItem>, now: seq<MsgItem>, windows: seq<SsidRange>, i: nat, ssid: nat)
    requires GoodTable(was, windows) && GoodTable(now, windows) && i < |was| && !Within(windows[i], ssid)
    requires now == was[i := now[i]]
    ensures WordOf(now, windows, ssid) == WordOf(was, windows, ssid)
  {
  }

  /** Setting all words gives every SSID the word that was asked for exactly when its four octets are equal. */
  lemma SetAllExact(mask: uint32, a: uint8, b: uint8, c: uint8, d: uint8)
    requires mask == a + 0x100 * b + 0x1_0000 * c + 0x100_0000 * d
    ensures Repeated(mask % 0x100) == mask <==> a == b == c == d
  {
    LowDigit(a, b + 0x100 * c + 0x1_0000 * d);
    assert Repeated(a) == a + 0x100 * (a + 0x100 * (a + 0x100 * a));
    if Repeated(a) == mask {
      SameDigits(a, a + 0x100 * (a + 0x100 * a), a, b + 0x100 * (c + 0x100 * d));
      SameDigits(a, a + 0x100 * a, b, c + 0x100 * d);
      SameDigits(a, a, c, d);
    }
  }

  lemma LowDigit(low: uint8, high: nat)
    ensures (low + 0x100 * high) % 0x100 == low
  {
  }

  lemma SameDigits(a: uint8, x: nat, b: uint8, y: nat)
    requires a + 0x100 * x == b + 0x100 * y
    ensures a == b && x == y
  {
  }

  /** With a low octet of zero and another one set, all messages are reported enabled and every one is disabled. */
  lemma SetAllContradicts(mask: uint32)
    ensures (mask != 0 && Repeated(mask % 0x100) == 0) <==> (mask != 0 && mask % 0x100 == 0)
  {
  }
}
