/**
 * djcelery_email/utils.py: splitting a sequence into fixed-size batches, and
 * converting email messages to plain dicts (to cross the task queue) and back.
 */
module Utils {
  import opened Wrappers
  import opened Mail

  // ---------------------------------------------------------------------------
  // Arithmetic behind the `idx % chunksize == 0` test
  // ---------------------------------------------------------------------------

  function Abs(k: int): nat {
    if k < 0 then -k else k
  }

  function Min(a: int, b: int): int {
    if a <= b then a else b
  }

  lemma {:induction false} MulBound(d: int, z: nat)
    requires z >= 1
    ensures Abs(d * z) >= Abs(d)
    decreases z
  {
    if z > 1 {
      MulBound(d, z - 1);
      assert d * z == d * (z - 1) + d;
    }
  }

  /** Quotient and remainder are determined by x == d * q + r with 0 <= r < |d|. */
  lemma DivModUnique(x: int, d: int, q: int, r: int)
    requires d != 0 && x == d * q + r && 0 <= r < Abs(d)
    ensures x / d == q && x % d == r
  {
    var q', r' := x / d, x % d;
    assert x == d * q' + r';
    if q > q' {
      assert d * (q - q') == r' - r;
      MulBound(d, q - q');
    } else if q < q' {
      assert d * (q' - q) == r - r';
      MulBound(d, q' - q);
    }
  }

  /** Counting up by one, the remainder modulo k wraps to 0 exactly after |k| - 1. */
  lemma ModNext(i: nat, k: int)
    requires k != 0
    ensures (i + 1) % k == if i % k == Abs(k) - 1 then 0 else i % k + 1
  {
    var q, r := i / k, i % k;
    if r == Abs(k) - 1 {
      if k > 0 { DivModUnique(i + 1, k, q + 1, 0); } else { DivModUnique(i + 1, k, q - 1, 0); }
    } else {
      DivModUnique(i + 1, k, q, r + 1);
    }
  }

  // ---------------------------------------------------------------------------
  // chunked
  // ---------------------------------------------------------------------------

  /**
   * The chunks `chunked` yields for a chunk size k >= 1: consecutive groups of
   * k items in input order, the last one holding what remains.
   */
  function ChunksOf<T>(s: seq<T>, k: nat): seq<seq<T>>
    requires k >= 1
    decreases |s|
  {
    if |s| <= k then (if s == [] then [] else [s])
    else [s[..k]] + ChunksOf(s[k..], k)
  }

  /** The concatenation of a sequence of sequences. */
  function Flatten<T>(ss: seq<seq<T>>): seq<T> {
    if ss == [] then [] else ss[0] + Flatten(ss[1..])
  }

  /** Concatenating the chunks gives back the input, in order. */
  lemma {:induction false} FlattenChunksOf<T>(s: seq<T>, k: nat)
    requires k >= 1
    ensures Flatten(ChunksOf(s, k)) == s
    decreases |s|
  {
    if |s| > k {
      var c := ChunksOf(s, k);
      assert c[0] == s[..k] && c[1..] == ChunksOf(s[k..], k);
      FlattenChunksOf(s[k..], k);
      assert s == s[..k] + s[k..];
    }
  }

  /**
   * No chunk is empty, none is longer than k, and every chunk but the last
   * holds exactly k items.
   */
  lemma {:induction false} ChunkSizes<T>(s: seq<T>, k: nat)
    requires k >= 1
    ensures forall j | 0 <= j < |ChunksOf(s, k)| :: 1 <= |ChunksOf(s, k)[j]| <= k
    ensures forall j | 0 <= j < |ChunksOf(s, k)| - 1 :: |ChunksOf(s, k)[j]| == k
    decreases |s|
  {
    if |s| > k {
      var c := ChunksOf(s, k);
      ChunkSizes(s[k..], k);
      assert forall j | 1 <= j < |c| :: c[j] == ChunksOf(s[k..], k)[j - 1];
    }
  }

  lemma MulStep(j: nat, k: nat)
    requires j >= 1
    ensures (j - 1) * k + k == j * k && j * k + k == (j + 1) * k
  {
  }

  /** Chunk j holds the items at 0-based positions j*k up to (j+1)*k, cut at the end of the input. */
  lemma {:induction false} ChunkAt<T>(s: seq<T>, k: nat, j: nat)
    requires k >= 1 && j < |ChunksOf(s, k)|
    ensures j * k < |s|
    ensures ChunksOf(s, k)[j] == s[j * k .. Min((j + 1) * k, |s|)]
    decreases |s|
  {
    var c := ChunksOf(s, k);
    if |s| > k && j > 0 {
      var t := s[k..];
      assert c == [s[..k]] + ChunksOf(t, k);
      assert c[j] == ChunksOf(t, k)[j - 1];
      ChunkAt(t, k, j - 1);
      MulStep(j, k);
      var lo, hi := (j - 1) * k, Min(j * k, |t|);
      assert lo + k == j * k && hi + k == Min((j + 1) * k, |s|);
      assert t[lo..hi] == s[j * k .. Min((j + 1) * k, |s|)];
    }
  }

  /** Adding k to a non-negative number adds one to its quotient by k. */
  lemma DivPlus(x: nat, k: nat)
    requires k >= 1
    ensures (x + k) / k == x / k + 1
  {
    var q, r := x / k, x % k;
    assert x + k == k * (q + 1) + r;
    DivModUnique(x + k, k, q + 1, r);
  }

  /** An input of N items gives ceil(N / k) chunks; in particular none for an empty input. */
  lemma {:induction false} ChunkCount<T>(s: seq<T>, k: nat)
    requires k >= 1
    ensures |ChunksOf(s, k)| == (|s| + k - 1) / k
    decreases |s|
  {
    if |s| == 0 {
      DivModUnique(k - 1, k, 0, k - 1);
    } else if |s| <= k {
      DivModUnique(|s| + k - 1, k, 1, |s| - 1);
    } else {
      ChunkCount(s[k..], k);
      DivPlus(|s| - 1, k);
    }
  }

  /** The last chunk holds N mod k items, or k when k divides N. */
  lemma {:induction false} LastChunkSize<T>(s: seq<T>, k: nat)
    requires k >= 1 && |s| > 0
    ensures |ChunksOf(s, k)| > 0
    ensures |ChunksOf(s, k)[|ChunksOf(s, k)| - 1]| == if |s| % k == 0 then k else |s| % k
    decreases |s|
  {
    if |s| < k {
      DivModUnique(|s|, k, 0, |s|);
    } else if |s| == k {
      DivModUnique(|s|, k, 1, 0);
    } else {
      LastChunkSize(s[k..], k);
      DivModUnique(|s|, k, (|s| - k) / k + 1, (|s| - k) % k);
    }
  }

  /**
   * Appending a group of 1 to k items to an input whose length is a multiple
   * of k appends exactly that group as a new chunk.
   */
  lemma {:induction false} ChunksOfAppend<T>(p: seq<T>, c: seq<T>, k: nat, n: nat)
    requires k >= 1 && |p| == n * k && 1 <= |c| <= k
    ensures ChunksOf(p + c, k) == ChunksOf(p, k) + [c]
    decreases n
  {
    if n == 0 {
      assert p + c == c;
    } else {
      assert |p| == (n - 1) * k + k;
      assert (p + c)[..k] == p[..k];
      assert (p + c)[k..] == p[k..] + c;
      ChunksOfAppend(p[k..], c, k, n - 1);
      if |p| == k {
        assert p[k..] == [] && p[..k] == p;
      }
    }
  }

  /**
   * `chunked(iterator, chunksize)`: a running 1-based index, and an
   * accumulator that is emitted and reset whenever the index is a multiple of
   * `chunksize`; a non-empty remainder is emitted at the end. The zero test
   * on Python's remainder makes a negative size act as its absolute value; a
   * size of 0 raises ZeroDivisionError at the first item (an empty input
   * gives no chunks) and is excluded.
   */
  method Chunked<T>(items: seq<T>, chunksize: int) returns (chunks: seq<seq<T>>)
    requires chunksize != 0
    ensures chunks == ChunksOf(items, Abs(chunksize))
  {
    ghost var k := Abs(chunksize);
    ghost var emitted: nat := 0;
    chunks := [];
    var chunk: seq<T> := [];
    for i := 0 to |items|
      invariant |chunk| < k
      invariant i % chunksize == |chunk|
      invariant i - |chunk| == emitted * k
      invariant chunk == items[i - |chunk| .. i]
      invariant chunks == ChunksOf(items[..i - |chunk|], k)
    {
      var idx := i + 1;
      ModNext(i, chunksize);
      ChunkedStep(items, i, chunk, k, emitted);
      chunk := chunk + [items[i]];
      if idx % chunksize == 0 {
        chunks := chunks + [chunk];
        chunk := [];
        emitted := emitted + 1;
      }
    }
    if chunk != [] {
      ChunksOfAppend(items[..|items| - |chunk|], chunk, k, emitted);
      assert items[..|items| - |chunk|] + chunk == items;
      chunks := chunks + [chunk];
    } else {
      assert items[..|items|] == items;
    }
  }

  /** One iteration of the loop of `chunked`, on the specification side. */
  lemma ChunkedStep<T>(items: seq<T>, i: nat, chunk: seq<T>, k: nat, emitted: nat)
    requires k >= 1 && i < |items| && |chunk| < k
    requires i - |chunk| == emitted * k && chunk == items[i - |chunk| .. i]
    ensures chunk + [items[i]] == items[i - |chunk| .. i + 1]
    ensures items[..i - |chunk|] + (chunk + [items[i]]) == items[..i + 1]
    ensures ChunksOf(items[..i + 1], k) == ChunksOf(items[..i - |chunk|], k) + [chunk + [items[i]]]
    ensures |chunk| + 1 == k ==> i + 1 == (emitted + 1) * k
  {
    ChunksOfAppend(items[..i - |chunk|], chunk + [items[i]], k, emitted);
    assert items[..i - |chunk|] + (chunk + [items[i]]) == items[..i + 1];
  }

  // ---------------------------------------------------------------------------
  // to_dict_list / from_dict_list
  // ---------------------------------------------------------------------------

  /** What the conversions are given: an EmailMessage object or a plain dict. */
  datatype Item = Obj(message: EmailMessage) | Dict(fields: map<string, Value>)

  /** The argument of `to_dict_list`: one object, or a list of them. */
  datatype Messages = One(item: Item) | Many(items: seq<Item>)

  /** The keys of every dict `to_dict_list` builds. */
  const DictKeys: set<string> :=
    {"subject", "body", "from_email", "to", "bcc", "attachments", "headers", "cc"}

  /** The dict `to_dict_list` builds for one message: `extra_headers` under `headers`, `connection` dropped. */
  function MessageToDict(m: EmailMessage): (d: map<string, Value>)
    ensures d.Keys == DictKeys
  {
    map[
      "subject" := Text(m.subject),
      "body" := Text(m.body),
      "from_email" := Text(m.fromEmail),
      "to" := Addresses(m.to),
      "bcc" := Addresses(m.bcc),
      "attachments" := Files(m.attachments),
      "headers" := Headers(m.extraHeaders),
      "cc" := Addresses(m.cc)
    ]
  }

  predicate AllObjects(items: seq<Item>) {
    forall j | 0 <= j < |items| :: items[j].Obj?
  }

  /**
   * What `to_dict_list` returns. A lone object (it has `from_email`) is
   * treated as a one-element list. A lone dict is iterated over its keys,
   * strings without a `subject` attribute, so only an empty one gets through.
   * In a list, any dict raises AttributeError on `message.subject`.
   */
  function ToDictListSpec(messages: Messages): Result<seq<map<string, Value>>, Error> {
    match messages
    case One(Obj(m)) => Ok([MessageToDict(m)])
    case One(Dict(d)) => if |d| == 0 then Ok([]) else Err(AttributeError("subject"))
    case Many(items) =>
      if AllObjects(items) then Ok(seq(|items|, j requires 0 <= j < |items| => MessageToDict(items[j].message)))
      else Err(AttributeError("subject"))
  }

  /** `to_dict_list(messages)`: normalise to a list, then append one dict per message. */
  method ToDictList(messages: Messages) returns (r: Result<seq<map<string, Value>>, Error>)
    ensures r == ToDictListSpec(messages)
  {
    var list: seq<Item>;
    match messages {
      case One(Obj(m)) =>
        list := [Obj(m)];
      case One(Dict(d)) =>
        if |d| == 0 {
          return Ok([]);
        }
        return Err(AttributeError("subject"));
      case Many(items) =>
        list := items;
    }
    var messageDicts: seq<map<string, Value>> := [];
    for i := 0 to |list|
      invariant AllObjects(list[..i])
      invariant |messageDicts| == i
      invariant forall j | 0 <= j < i :: messageDicts[j] == MessageToDict(list[j].message)
    {
      match list[i] {
        case Dict(_) =>
          return Err(AttributeError("subject"));
        case Obj(m) =>
          messageDicts := messageDicts + [MessageToDict(m)];
      }
    }
    assert list[..|list|] == list;
    assert AllObjects(list);
    assert messageDicts == seq(|list|, j requires 0 <= j < |list| => MessageToDict(list[j].message));
    assert messages.One? ==> messageDicts == [MessageToDict(list[0].message)];
    return Ok(messageDicts);
  }

  /** A lone message object gives the same result as the one-element list holding it. */
  lemma ToDictListSingle(m: EmailMessage)
    ensures ToDictListSpec(One(Obj(m))) == ToDictListSpec(Many([Obj(m)]))
  {
    assert seq(1, j requires 0 <= j < 1 => MessageToDict([Obj(m)][j].message)) == [MessageToDict(m)];
  }

  /**
   * A list succeeds exactly when every element is a message object; then it
   * gives one dict per message, in order, each with the eight keys, every
   * value copied from the attribute of the same name, `headers` from
   * `extra_headers`, and no `connection`.
   */
  lemma ToDictListShape(items: seq<Item>)
    ensures ToDictListSpec(Many(items)).Ok? <==> AllObjects(items)
    ensures ToDictListSpec(Many(items)).Ok? ==>
      var dicts := ToDictListSpec(Many(items)).value;
      && |dicts| == |items|
      && forall j | 0 <= j < |items| ::
        var m := items[j].message;
        && dicts[j].Keys == DictKeys
        && "connection" !in dicts[j]
        && dicts[j]["subject"] == Text(m.subject)
        && dicts[j]["body"] == Text(m.body)
        && dicts[j]["from_email"] == Text(m.fromEmail)
        && dicts[j]["to"] == Addresses(m.to)
        && dicts[j]["bcc"] == Addresses(m.bcc)
        && dicts[j]["cc"] == Addresses(m.cc)
        && dicts[j]["attachments"] == Files(m.attachments)
        && dicts[j]["headers"] == Headers(m.extraHeaders)
  {
  }

  /** One element of `[EmailMessage(**m) for m in messages]`; `**` on an object raises TypeError. */
  function Rebuild(item: Item, defaultFrom: string): Result<EmailMessage, Error> {
    match item
    case Obj(_) => Err(TypeError(NotAMapping))
    case Dict(kwargs) => NewEmailMessage(kwargs, defaultFrom)
  }

  /** The list comprehension of `from_dict_list`, which stops at the first element that raises. */
  function RebuildAll(items: seq<Item>, defaultFrom: string): (r: Result<seq<Item>, Error>)
    ensures r.Ok? <==> forall j | 0 <= j < |items| :: Rebuild(items[j], defaultFrom).Ok?
    ensures r.Ok? ==> |r.value| == |items|
    ensures r.Ok? ==> forall j | 0 <= j < |items| :: r.value[j] == Obj(Rebuild(items[j], defaultFrom).value)
    decreases |items|
  {
    if items == [] then Ok([])
    else
      var m :- Rebuild(items[0], defaultFrom);
      var rest :- RebuildAll(items[1..], defaultFrom);
      assert forall j | 1 <= j < |items| :: items[j] == items[1..][j - 1];
      Ok([Obj(m)] + rest)
  }

  /**
   * `from_dict_list(messages)`: a non-empty list whose first element is
   * already an object is returned as it is; otherwise every element is
   * rebuilt, keeping length and order.
   */
  function FromDictList(messages: seq<Item>, defaultFrom: string): (r: Result<seq<Item>, Error>)
    ensures |messages| > 0 && messages[0].Obj? ==> r == Ok(messages)
    ensures messages == [] ==> r == Ok([])
    ensures (|messages| == 0 || messages[0].Dict?) ==>
      (r.Ok? <==> forall j | 0 <= j < |messages| :: messages[j].Dict? && WellFormedKeywords(messages[j].fields))
    ensures (|messages| == 0 || messages[0].Dict?) && r.Ok? ==>
      |r.value| == |messages| &&
      forall j | 0 <= j < |messages| :: r.value[j] == Obj(NewEmailMessage(messages[j].fields, defaultFrom).value)
  {
    if |messages| > 0 && messages[0].Obj? then Ok(messages)
    else RebuildAll(messages, defaultFrom)
  }

  /** Once rebuilt, a list is left as it is by a second pass. */
  lemma FromDictListIdempotent(messages: seq<Item>, defaultFrom: string)
    requires FromDictList(messages, defaultFrom).Ok?
    ensures FromDictList(FromDictList(messages, defaultFrom).value, defaultFrom) == FromDictList(messages, defaultFrom)
  {
  }

  /**
   * The message `from_dict_list` gives back for a message sent through
   * `to_dict_list`: the connection is gone, and an empty sender has become
   * the default sender.
   */
  function Restored(m: EmailMessage, defaultFrom: string): EmailMessage {
    m.(connection := NoConnection, fromEmail := if m.fromEmail == "" then defaultFrom else m.fromEmail)
  }

  /** Rebuilding the dict of a message restores every attribute the dict carries. */
  lemma MessageRoundTrip(m: EmailMessage, defaultFrom: string)
    ensures NewEmailMessage(MessageToDict(m), defaultFrom) == Ok(Restored(m, defaultFrom))
    ensures m.fromEmail != "" ==> NewEmailMessage(MessageToDict(m), defaultFrom) == Ok(m.(connection := NoConnection))
  {
    var d := MessageToDict(m);
    assert d["subject"] == Text(m.subject) && d["body"] == Text(m.body);
    assert d["from_email"] == Text(m.fromEmail);
    assert d["to"] == Addresses(m.to) && d["bcc"] == Addresses(m.bcc) && d["cc"] == Addresses(m.cc);
    assert d["attachments"] == Files(m.attachments) && d["headers"] == Headers(m.extraHeaders);
    assert "connection" !in d;
  }

  /**
   * `from_dict_list(to_dict_list(ms))` gives back the messages, in order,
   * each without its connection and with an empty sender replaced by the
   * default one.
   */
  lemma {:induction false} ToDictListRoundTrip(items: seq<Item>, defaultFrom: string)
    requires AllObjects(items)
    ensures ToDictListSpec(Many(items)).Ok?
    ensures FromDictList(seq(|items|, j requires 0 <= j < |items| => Dict(ToDictListSpec(Many(items)).value[j])), defaultFrom)
         == Ok(seq(|items|, j requires 0 <= j < |items| => Obj(Restored(items[j].message, defaultFrom))))
  {
    var dicts := ToDictListSpec(Many(items)).value;
    var asItems := seq(|items|, j requires 0 <= j < |items| => Dict(dicts[j]));
    forall j | 0 <= j < |items|
      ensures NewEmailMessage(dicts[j], defaultFrom) == Ok(Restored(items[j].message, defaultFrom))
    {
      MessageRoundTrip(items[j].message, defaultFrom);
    }
    var r := FromDictList(asItems, defaultFrom);
    assert r.Ok?;
    assert r.value == seq(|items|, j requires 0 <= j < |items| => Obj(Restored(items[j].message, defaultFrom)));
  }

  /** Eleven messages in chunks of four: two full chunks, then one of three. */
  lemma ElevenInFours<T>(s: seq<T>)
    requires |s| == 11
    ensures |ChunksOf(s, 4)| == 3
    ensures |ChunksOf(s, 4)[0]| == 4 && |ChunksOf(s, 4)[1]| == 4 && |ChunksOf(s, 4)[2]| == 3
  {
    ChunkCount(s, 4);
    ChunkSizes(s, 4);
    LastChunkSize(s, 4);
  }

  /** The example of the `chunked` docstring: [1, 2, 3, 4, 5] in chunks of 2. */
  lemma DocstringExample()
    ensures ChunksOf([1, 2, 3, 4, 5], 2) == [[1, 2], [3, 4], [5]]
  {
    assert ChunksOf([5], 2) == [[5]];
    assert [3, 4, 5][..2] == [3, 4] && [3, 4, 5][2..] == [5];
    assert ChunksOf([3, 4, 5], 2) == [[3, 4], [5]];
    assert [1, 2, 3, 4, 5][..2] == [1, 2] && [1, 2, 3, 4, 5][2..] == [3, 4, 5];
  }
}
