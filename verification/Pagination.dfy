/** The channel page's messages: fifty at a time from the newest backwards, and the count of those not yet reached. */
module Pagination {
  import opened ByteText
  import opened Messages
  import opened MessageRuns

  const PAGE_SIZE := 50
  const INT64_LIMIT: int := 0x8000_0000_0000_0000

  /** Two's complement in 64 bits. */
  function ToInt64(x: int): (r: int)
    ensures -INT64_LIMIT <= r < INT64_LIMIT
    ensures -INT64_LIMIT <= x < INT64_LIMIT ==> r == x
  {
    var low := x % UINT64_LIMIT;
    if low < INT64_LIMIT then low else low - UINT64_LIMIT
  }

  function ToUint64(x: int): (r: nat)
    ensures r < UINT64_LIMIT
    ensures 0 <= x < UINT64_LIMIT ==> r == x
  {
    x % UINT64_LIMIT
  }

  function Offset(page: int): int {
    if page > 0 then ToInt64(page * PAGE_SIZE) else 0
  }

  function NextPageAmount(page: int): nat {
    ToUint64(ToUint64(ToUint64(page) + 1) * PAGE_SIZE)
  }

  function Remaining(count: nat, page: int): nat {
    if count > NextPageAmount(page) then count - NextPageAmount(page) else 0
  }

  function NotBelow0(x: int): nat {
    if x < 0 then 0 else x
  }

  /** The rows `skip` back from the newest, at most a page of them, oldest first. */
  function Shown<T>(rows: seq<T>, skip: nat): (s: seq<T>) {
    rows[NotBelow0(|rows| - skip - PAGE_SIZE)..NotBelow0(|rows| - skip)]
  }

  function NewestFirst<T>(rows: seq<T>): (r: seq<T>)
    ensures |r| == |rows| && forall i :: 0 <= i < |r| ==> r[i] == rows[|rows| - 1 - i]
  {
    seq(|rows|, i requires 0 <= i < |rows| => rows[|rows| - 1 - i])
  }

  /** ORDER BY id DESC LIMIT 50 OFFSET ?; the query fails on a negative offset. */
  function Selected<T>(rows: seq<T>, offset: nat): (r: seq<T>)
    ensures |r| <= PAGE_SIZE
  {
    var from := if offset < |rows| then offset else |rows|;
    var to := if from + PAGE_SIZE < |rows| then from + PAGE_SIZE else |rows|;
    NewestFirst(rows)[from..to]
  }

  method ReverseInPlace<T>(a: array<T>)
    modifies a
    ensures a[..] == NewestFirst(old(a[..]))
  {
    var i, j := 0, a.Length - 1;
    while i < j
      invariant 0 <= i <= a.Length && j == a.Length - 1 - i && i <= j + 1
      invariant forall k :: 0 <= k < i || j < k < a.Length ==> a[k] == old(a[a.Length - 1 - k])
      invariant forall k :: i <= k <= j ==> a[k] == old(a[k])
    {
      a[i], a[j] := a[j], a[i];
      i, j := i + 1, j - 1;
    }
  }

  /** The page holds the right window of the channel's rows in the order they were written, or nothing when the offset
      has wrapped below zero. */
  method FetchPage(messages: seq<Message>, channel: nat, page: int)
    returns (shown: Option<array<Message>>, remaining: nat)
    requires -INT64_LIMIT <= page < INT64_LIMIT && |messages| < UINT64_LIMIT
    ensures shown.Some? <==> Offset(page) >= 0
    ensures shown.Some? ==> fresh(shown.value) && shown.value[..] == Shown(InChannel(messages, channel), Offset(page))
    ensures shown.Some? ==> remaining == Remaining(|InChannel(messages, channel)|, page)
  {
    var offset := 0;
    if page > 0 { offset := ToInt64(page * PAGE_SIZE); }
    shown, remaining := None, 0;
    if offset < 0 { return; }
    var rows := Selected(InChannel(messages, channel), offset);
    var a := new Message[|rows|](i requires 0 <= i < |rows| => rows[i]);
    assert a[..] == rows;
    ReverseInPlace(a);
    WindowReversed(InChannel(messages, channel), offset);
    remaining := |InChannel(messages, channel)|;
    var nextPageAmount := ToUint64(ToUint64(ToUint64(page) + 1) * PAGE_SIZE);
    if remaining > nextPageAmount { remaining := remaining - nextPageAmount; } else { remaining := 0; }
    shown := Some(a);
  }

  lemma WindowReversed<T>(rows: seq<T>, offset: nat)
    ensures NewestFirst(Selected(rows, offset)) == Shown(rows, offset)
  {
  }

  /** The window really is ORDER BY id: shown ids grow, and every message before the window is older than all of it. */
  lemma ShownByIds(log: Log, channel: nat, skip: nat, older: nat, i: nat)
    requires WellKept(log)
    requires i < |Shown(InChannel(log.messages, channel), skip)|
    requires older < |InChannel(log.messages, channel)| - skip - PAGE_SIZE
    ensures var s := Shown(InChannel(log.messages, channel), skip);
            Increasing(s) && InChannel(log.messages, channel)[older].id < s[i].id
  {
    InChannelIncreasing(log.messages, channel);
  }

  /** Pages p, p-1, ..., 0, one after the other. */
  function BackTo<T>(rows: seq<T>, p: nat): seq<T> {
    Shown(rows, p * PAGE_SIZE) + if p == 0 then [] else BackTo(rows, p - 1)
  }

  lemma {:induction false} BackToIsNewest<T>(rows: seq<T>, p: nat)
    ensures BackTo(rows, p) == rows[NotBelow0(|rows| - PAGE_SIZE * (p + 1))..]
  {
    if p > 0 { BackToIsNewest(rows, p - 1); }
  }

  /** Paging back from the newest message reads every message once, in order, and the remaining count is what is
      left. */
  lemma PagesCover<T>(rows: seq<T>, p: nat)
    requires PAGE_SIZE * (p + 1) < INT64_LIMIT
    ensures forall k :: 0 <= k <= p ==> Offset(k) == k * PAGE_SIZE
    ensures |BackTo(rows, p)| == if |rows| < PAGE_SIZE * (p + 1) then |rows| else PAGE_SIZE * (p + 1)
    ensures BackTo(rows, p) == rows[|rows| - |BackTo(rows, p)|..]
    ensures Remaining(|rows|, p) + |BackTo(rows, p)| == |rows|
  {
    BackToIsNewest(rows, p);
  }

  /** What the shown page leaves unread: everything older than it. */
  function Older<T>(rows: seq<T>, page: int): nat
    requires Offset(page) >= 0
  {
    NotBelow0(|rows| - Offset(page) - PAGE_SIZE)
  }

  /** For every page number that is not negative, wrapped offset or not, a page that is shown reports the right
      count. */
  lemma RemainingRight<T>(rows: seq<T>, page: int)
    requires 0 <= page < INT64_LIMIT && Offset(page) >= 0
    ensures Remaining(|rows|, page) == Older(rows, page)
  {
    NextWraps(page);
  }

  lemma NextWraps(page: int)
    ensures (page + 1) * PAGE_SIZE % UINT64_LIMIT == (page * PAGE_SIZE % UINT64_LIMIT + PAGE_SIZE) % UINT64_LIMIT
  {
    var low := page * PAGE_SIZE % UINT64_LIMIT;
    assert (page + 1) * PAGE_SIZE == page * PAGE_SIZE + PAGE_SIZE;
    assert page * PAGE_SIZE == UINT64_LIMIT * (page * PAGE_SIZE / UINT64_LIMIT) + low;
  }

  /** A multiple of 50 that 2^64 divides, no further below zero than 50 times 2^63. */
  lemma OnlyTheSmallest(page: int)
    requires -INT64_LIMIT <= page < 0 && (page * PAGE_SIZE) % UINT64_LIMIT == 0
    ensures page == -INT64_LIMIT
  {
    var m := -(page * PAGE_SIZE / UINT64_LIMIT);
    assert 25 * -page == m * INT64_LIMIT && 0 < m <= 25;
    var t := -page - m * (INT64_LIMIT / 25);
    assert INT64_LIMIT == 25 * (INT64_LIMIT / 25) + 8;
    assert 25 * t == 8 * m && m == 25 * (m - 3 * t);
  }

  /** For every negative page number the newest page is shown, and its count is right if and only if the number is the
      smallest there is, or the channel has at most a page of messages and no more than the amount computed. */
  lemma NegativePageRightIff<T>(rows: seq<T>, page: int)
    requires -INT64_LIMIT <= page < 0
    ensures Shown(rows, Offset(page)) == Shown(rows, Offset(0))
    ensures Remaining(|rows|, page) == Older(rows, page)
       <==> page == -INT64_LIMIT || (|rows| <= PAGE_SIZE && |rows| <= NextPageAmount(page))
  {
    var next := NextPageAmount(page);
    assert next == ((page + 1) * PAGE_SIZE) % UINT64_LIMIT by { NegativeAmount(page); }
    if next == PAGE_SIZE {
      assert (page * PAGE_SIZE) % UINT64_LIMIT == 0;
      OnlyTheSmallest(page);
    }
    if page == -INT64_LIMIT { assert next == PAGE_SIZE; }
  }

  lemma NegativeAmount(page: int)
    requires -INT64_LIMIT <= page < 0
    ensures NextPageAmount(page) == ((page + 1) * PAGE_SIZE) % UINT64_LIMIT
  {
    assert ToUint64(page) == page + UINT64_LIMIT;
    if page == -1 {
      assert ToUint64(ToUint64(page) + 1) == 0;
    } else {
      assert ToUint64(ToUint64(page) + 1) == page + 1 + UINT64_LIMIT;
      assert (page + 1 + UINT64_LIMIT) * PAGE_SIZE == (page + 1) * PAGE_SIZE + UINT64_LIMIT * PAGE_SIZE;
    }
  }

  /** Page -1 shows the newest page but counts every message as remaining. */
  lemma MinusOneCountsAll<T>(rows: seq<T>)
    ensures Shown(rows, Offset(-1)) == Shown(rows, Offset(0)) && Remaining(|rows|, -1) == |rows|
    ensures Remaining(|rows|, -1) == Older(rows, -1) <==> rows == []
  {
  }

  /** Page p holds fifty messages, or what there is, ending 50p before the newest, oldest first; what is older is the
      count still to come. */
  lemma PageHolds<T>(rows: seq<T>, p: nat)
    requires 50 * p < 0x8000_0000_0000_0000
    ensures Offset(p) == 50 * p
    ensures var s, left := Shown(rows, 50 * p), |rows| - 50 * p;
            && |s| == (if left <= 0 then 0 else if left < 50 then left else 50)
            && forall i :: 0 <= i < |s| ==> s[i] == rows[left - |s| + i]
    ensures 50 * (p + 1) < 0x1_0000_0000_0000_0000
    ensures Remaining(|rows|, p) == if |rows| > 50 * (p + 1) then |rows| - 50 * (p + 1) else 0
  {
  }

  /** Beyond that the products wrap: the offset into 64 bits with a sign, the amount into 64 without. */
  lemma OffsetsWrap(page: int)
    requires -0x8000_0000_0000_0000 <= page < 0x8000_0000_0000_0000
    ensures page > 0 ==> -0x8000_0000_0000_0000 <= Offset(page) < 0x8000_0000_0000_0000
                         && (Offset(page) - 50 * page) % 0x1_0000_0000_0000_0000 == 0
    ensures page <= 0 ==> Offset(page) == 0
    ensures NextPageAmount(page) == 50 * (page + 1) % 0x1_0000_0000_0000_0000
  {
    if page < 0 { NegativeAmount(page); }
    if page > 0 {
      var low := page * PAGE_SIZE % UINT64_LIMIT;
      assert page * PAGE_SIZE == UINT64_LIMIT * (page * PAGE_SIZE / UINT64_LIMIT) + low;
    }
  }
}
