// The field scanner of byteport-stomp-client.c and the pool in which it keeps
// the strings it finds.
module JsonScan {
  import opened CStrings

  const POOL_SIZE := 20 * 1024

  // ----- the pool: gs_data, gs_data_index -----

  class Pool {
    const data: array<char>
    var index: nat

    ghost predicate Valid()
      reads this, data
    {
      && data.Length == POOL_SIZE && index < POOL_SIZE
      && forall k | index <= k < POOL_SIZE :: data[k] == '\0'
    }

    constructor ()
      ensures Valid() && fresh(data) && index == 0
    {
      data := new char[POOL_SIZE](_ => '\0');
      index := 0;
    }

    // gs_data_init
    method Init()
      requires data.Length == POOL_SIZE
      modifies this, data
      ensures Valid() && index == 0
    {
      index := 0;
      for k := 0 to POOL_SIZE
        invariant index == 0
        invariant forall j | 0 <= j < k :: data[j] == '\0'
      {
        data[k] := '\0';
      }
    }

    // gs_data_alloc; without room it returns NULL and takes nothing.
    method Alloc(size: nat) returns (ok: bool, at: nat)
      requires Valid()
      modifies this
      ensures Valid() && ok == (old(index) + size < POOL_SIZE)
      ensures index == if ok then old(index) + size else old(index)
      ensures ok ==> at == old(index)
    {
      ok, at := index + size < POOL_SIZE, index;
      if ok {
        index := index + size;
      }
    }
  }

  // ----- what the scanner finds -----

  // The text behind the first occurrence of a pattern (strstr).
  datatype Found = Nowhere | Behind(rest: string)

  predicate StartsWith(s: string, pattern: string) {
    |pattern| <= |s| && s[..|pattern|] == pattern
  }

  function After(s: string, pattern: string): (r: Found)
    ensures r.Behind? ==> |r.rest| + |pattern| <= |s|
  {
    if StartsWith(s, pattern) then Behind(s[|pattern|..])
    else if s == "" then Nowhere
    else After(s[1..], pattern)
  }

  function Quoted(field: string): string {
    "\"" + field + "\""
  }

  // The search pattern, printed into a buffer of 100 bytes.
  function Needle(field: string): string {
    if |Quoted(field)| <= 99 then Quoted(field) else Quoted(field)[..99]
  }

  // One round of the search: the next value and the text behind it.
  datatype Round = Stop | Next(value: string, rest: string)

  // The text between the next two quotes.
  function Quotation(s: string): (r: Round)
    ensures r.Next? ==> |r.value| + 1 + |r.rest| <= |s|
  {
    var open := IndexOf(s, '"');
    if open == |s| then Stop
    else
      var text := s[open + 1..];
      var close := IndexOf(text, '"');
      if close == |text| then Stop else Next(text[..close], text[close + 1..])
  }

  function Search(json: string, needle: string): (r: Round)
    ensures r.Next? ==> |r.value| + 1 + |r.rest| <= |json|
  {
    match After(json, needle)
    case Nowhere => Stop
    case Behind(text) => Quotation(text)
  }

  // The values written into the array.
  function Values(json: string, needle: string, max: nat): (r: seq<string>)
    ensures |r| <= max
    decreases max, 0
  {
    if max == 0 then [] else ValuesFrom(Search(json, needle), needle, max - 1)
  }

  function ValuesFrom(r: Round, needle: string, fewer: nat): (v: seq<string>)
    ensures |v| <= fewer + 1
    decreases fewer, 1
  {
    match r
    case Stop => []
    case Next(value, rest) => [value] + if rest == "" then [] else Values(rest, needle, fewer)
  }

  // The number returned: a value that ends the message is written, not counted.
  function Counted(json: string, needle: string, max: nat): (n: nat)
    decreases max, 0
  {
    if max == 0 then 0 else CountedFrom(Search(json, needle), needle, max - 1)
  }

  function CountedFrom(r: Round, needle: string, fewer: nat): (n: nat)
    decreases fewer, 1
  {
    match r
    case Stop => 0
    case Next(_, rest) => if rest == "" then 0 else 1 + Counted(rest, needle, fewer)
  }

  lemma {:induction false} CountedAtMost(json: string, needle: string, max: nat)
    ensures Counted(json, needle, max) <= |Values(json, needle, max)|
    decreases max
  {
    var r := Search(json, needle);
    if max > 0 {
      var fewer: nat := max - 1;
      ValuesNext(json, needle, r, fewer, max);
      CountedNext(json, needle, r, fewer, max);
      if r.Next? && r.rest != "" {
        CountedAtMost(r.rest, needle, fewer);
      }
    }
  }

  // Where the k-th of these strings lies when they are stored one behind the
  // other, each with its terminator.
  function Address(values: seq<string>, k: nat): nat
    requires k <= |values|
  {
    if k == 0 then 0 else Address(values, k - 1) + |values[k - 1]| + 1
  }

  function Need(values: seq<string>): nat {
    Address(values, |values|)
  }

  // The memory taken by the first k strings.
  function Packed(values: seq<string>, k: nat): (r: string)
    requires k <= |values|
    ensures |r| == Address(values, k)
  {
    if k == 0 then "" else Packed(values, k - 1) + (values[k - 1] + "\0")
  }

  lemma {:induction false} AddressGrows(values: seq<string>, k: nat, n: nat)
    requires k <= n <= |values|
    ensures Address(values, k) <= Address(values, n)
  {
    if k < n {
      AddressGrows(values, k, n - 1);
    }
  }

  lemma SliceOfPrefix(s: string, t: string, a: nat, b: nat)
    requires a <= b <= |s|
    ensures (s + t)[a..b] == s[a..b]
  {
  }

  // So every string can be read back at its address, with its terminator.
  lemma {:induction false} PackedAt(values: seq<string>, k: nat, n: nat)
    requires k < n <= |values|
    ensures Address(values, k) + |values[k]| < Address(values, n)
    ensures Packed(values, n)[Address(values, k)..Address(values, k) + |values[k]| + 1] == values[k] + "\0"
  {
    AddressGrows(values, k + 1, n);
    if k < n - 1 {
      PackedAt(values, k, n - 1);
      AddressGrows(values, k + 1, n - 1);
      SliceOfPrefix(Packed(values, n - 1), values[n - 1] + "\0", Address(values, k), Address(values, k + 1));
    }
  }

  lemma {:induction false} AddressCons(v: string, values: seq<string>, k: nat)
    requires k <= |values|
    ensures Address([v] + values, k + 1) == |v| + 1 + Address(values, k)
  {
    if k > 0 {
      AddressCons(v, values, k - 1);
    }
  }

  lemma NeedCons(v: string, values: seq<string>)
    ensures Need([v] + values) == |v| + 1 + Need(values)
  {
    AddressCons(v, values, |values|);
  }

  lemma ValuesNext(json: string, needle: string, r: Round, fewer: nat, max: nat)
    requires max == fewer + 1 && Search(json, needle) == r
    ensures Values(json, needle, max) == ValuesFrom(r, needle, fewer)
  {
  }

  lemma CountedNext(json: string, needle: string, r: Round, fewer: nat, max: nat)
    requires max == fewer + 1 && Search(json, needle) == r
    ensures Counted(json, needle, max) == CountedFrom(r, needle, fewer)
  {
  }

  predicate Fits(values: seq<string>, json: string) {
    Need(values) <= |json|
  }

  lemma FitsNext(json: string, r: Round, others: seq<string>)
    requires r.Next? && |r.value| + 1 + |r.rest| <= |json| && Fits(others, r.rest)
    ensures Fits([r.value] + others, json)
  {
    NeedCons(r.value, others);
  }

  lemma FitsRound(json: string, needle: string, fewer: nat, max: nat, r: Round, others: seq<string>)
    requires max == fewer + 1 && r.Next? && Search(json, needle) == r
    requires others == if r.rest == "" then [] else Values(r.rest, needle, fewer)
    requires Fits(others, r.rest)
    ensures Fits(Values(json, needle, max), json)
  {
    ValuesNext(json, needle, r, fewer, max);
    FitsNext(json, r, others);
  }

  // A scan takes no more pool bytes than the message has characters.
  lemma {:induction false} ScanFits(json: string, needle: string, max: nat)
    ensures Fits(Values(json, needle, max), json)
    decreases max
  {
    if max > 0 {
      var r, fewer: nat := Search(json, needle), max - 1;
      if r.Next? && r.rest == "" {
        FitsRound(json, needle, fewer, max, r, []);
      } else if r.Next? {
        ScanFits(r.rest, needle, fewer);
        FitsRound(json, needle, fewer, max, r, Values(r.rest, needle, fewer));
      }
    }
  }

  // Two scans of a message shorter than half the pool always fit.
  lemma TwoScansFit(json: string, field: string, field': string, max: nat)
    requires 2 * |json| < POOL_SIZE
    ensures Need(Values(json, Needle(field), max)) + Need(Values(json, Needle(field'), max)) < POOL_SIZE
  {
    ScanFits(json, Needle(field), max);
    ScanFits(json, Needle(field'), max);
  }

  // ----- get_json_value_by_field -----

  lemma {:induction false} TooShort(s: string, pattern: string)
    requires |s| < |pattern|
    ensures After(s, pattern) == Nowhere
  {
    if s != "" {
      TooShort(s[1..], pattern);
    }
  }

  method StrStr(s: string, start: nat, pattern: string) returns (found: bool, p: nat)
    requires start <= |s| && pattern != ""
    ensures found == After(s[start..], pattern).Behind?
    ensures found ==> start <= p && p + |pattern| <= |s| && After(s[start..], pattern).rest == s[p + |pattern|..]
  {
    p := start;
    while p + |pattern| <= |s|
      invariant start <= p <= |s|
      invariant After(s[p..], pattern) == After(s[start..], pattern)
    {
      assert s[p..][..|pattern|] == s[p..p + |pattern|];
      assert s[p..][|pattern|..] == s[p + |pattern|..] && s[p..][1..] == s[p + 1..];
      if s[p..p + |pattern|] == pattern {
        return true, p;
      }
      p := p + 1;
    }
    TooShort(s[p..], pattern);
    found := false;
  }

  method StrChr(s: string, start: nat, c: char) returns (found: bool, p: nat)
    requires start <= |s|
    ensures p == start + IndexOf(s[start..], c)
    ensures found == (p < |s|)
  {
    p := start;
    while p < |s| && s[p] != c
      invariant start <= p <= |s|
      invariant c !in s[start..p]
    {
      assert s[start..p + 1] == s[start..p] + [s[p]];
      p := p + 1;
    }
    assert s[start..][..p - start] == s[start..p];
    IndexOfIs(s[start..], c, p - start);
    found := p < |s|;
  }

  lemma TailOfTail(s: string, a: nat, b: nat)
    requires a <= b <= |s|
    ensures s[a..][b - a..] == s[b..]
  {
  }

  lemma SliceOfTail(s: string, a: nat, b: nat)
    requires a <= b <= |s|
    ensures s[a..][..b - a] == s[a..b]
  {
  }

  lemma QuotationIs(s: string, text: string, open: nat, close: nat)
    requires open == IndexOf(s, '"') < |s| && text == s[open + 1..] && close == IndexOf(text, '"')
    ensures Quotation(s) == if close < |text| then Next(text[..close], text[close + 1..]) else Stop
  {
  }

  method QuotationFrom(s: string, start: nat) returns (found: bool, open: nat, close: nat)
    requires start <= |s|
    ensures found ==> start <= open <= close < |s|
    ensures Quotation(s[start..]) == if found then Next(s[open..close], s[close + 1..]) else Stop
  {
    close := start;
    found, open := StrChr(s, start, '"');
    if !found { return; }
    open := open + 1;
    found, close := StrChr(s, open, '"');
    TailOfTail(s, start, open);
    QuotationIs(s[start..], s[open..], open - 1 - start, close - open);
    if found {
      TailOfTail(s, open, close + 1);
      SliceOfTail(s, open, close);
    }
  }

  lemma SearchIs(text: string, needle: string, behind: string)
    requires After(text, needle) == Behind(behind)
    ensures Search(text, needle) == Quotation(behind)
  {
  }

  // text is the message from start on, rest the message from behind on.
  method SearchFrom(json: string, start: nat, needle: string, ghost text: string)
    returns (found: bool, value: string, behind: nat, ghost rest: string)
    requires start <= |json| && text == json[start..] && needle != ""
    ensures Search(text, needle) == if found then Next(value, rest) else Stop
    ensures found ==> behind <= |json| && rest == json[behind..]
  {
    value, behind, rest := "", start, "";
    var p, open, close;
    found, p := StrStr(json, start, needle);
    if !found { return; }
    SearchIs(text, needle, json[p + |needle|..]);
    found, open, close := QuotationFrom(json, p + |needle|);
    if !found { return; }
    value, behind := json[open..close], close + 1;
    rest := json[behind..];
  }

  // strncpy into fresh, zeroed pool memory.
  method Keep(pool: Pool, value: string) returns (at: nat)
    requires pool.Valid() && pool.index + |value| + 1 < POOL_SIZE
    modifies pool, pool.data
    ensures pool.Valid() && at == old(pool.index) && pool.index == at + |value| + 1
    ensures pool.data[at..pool.index] == value + "\0"
    ensures pool.data[..at] == old(pool.data[..pool.index])
  {
    var ok;
    ok, at := pool.Alloc(|value| + 1);
    for k := 0 to |value|
      invariant pool.index == at + |value| + 1
      invariant pool.data[at..at + k] == value[..k]
      invariant pool.data[..at] == old(pool.data[..pool.index])
      invariant forall j | at + |value| <= j < POOL_SIZE :: pool.data[j] == '\0'
    {
      pool.data[at + k] := value[k];
    }
  }

  // The first n of these strings have been stored from address start on.
  ghost predicate Stored(pool: Pool, start: nat, values: seq<string>, n: nat)
    reads pool, pool.data
  {
    && n <= |values| && pool.index == start + Address(values, n) <= pool.data.Length
    && pool.data[start..pool.index] == Packed(values, n)
  }

  method KeepNext(pool: Pool, ghost start: nat, ghost values: seq<string>, ghost n: nat, value: string)
    returns (at: nat)
    requires pool.Valid() && start + Need(values) < POOL_SIZE
    requires n < |values| && value == values[n] && Stored(pool, start, values, n)
    modifies pool, pool.data
    ensures pool.Valid() && Stored(pool, start, values, n + 1)
    ensures at == start + Address(values, n)
    ensures pool.data[..start] == old(pool.data[..start])
  {
    AddressGrows(values, n + 1, |values|);
    ghost var before := pool.data[..pool.index];
    assert before[start..] == pool.data[start..pool.index];
    at := Keep(pool, value);
    KeptBehind(before, pool.data[..pool.index], start, value);
    assert pool.data[..pool.index][start..] == pool.data[start..pool.index];
    assert pool.data[..pool.index][..start] == pool.data[..start];
    assert before[..start] == old(pool.data[..start]);
  }

  // The scan of the remaining text yields what is missing after n values.
  predicate Remaining(values: seq<string>, count: nat, n: nat, text: string, needle: string, max: nat) {
    && n <= |values| && n <= max
    && values[n..] == Values(text, needle, max - n)
    && count == n + Counted(text, needle, max - n)
  }

  lemma RemainingStart(json: string, needle: string, max: nat)
    ensures Remaining(Values(json, needle, max), Counted(json, needle, max), 0, json, needle, max)
  {
  }

  lemma RemainingEnd(values: seq<string>, count: nat, text: string, needle: string, max: nat)
    requires Remaining(values, count, max, text, needle, max)
    ensures |values| == count == max
  {
  }

  lemma RemainingStop(values: seq<string>, count: nat, n: nat, text: string, needle: string, max: nat)
    requires n < max && Remaining(values, count, n, text, needle, max)
    requires Search(text, needle) == Stop
    ensures |values| == count == n
  {
    var left: nat := max - n;
    var fewer: nat := left - 1;
    ValuesNext(text, needle, Stop, fewer, left);
    CountedNext(text, needle, Stop, fewer, left);
  }

  lemma RemainingNext(values: seq<string>, count: nat, n: nat, text: string, needle: string, max: nat,
                      value: string, rest: string)
    requires n < max && Remaining(values, count, n, text, needle, max)
    requires Search(text, needle) == Next(value, rest)
    ensures n < |values| && values[n] == value
    ensures if rest == "" then |values| == n + 1 && count == n
            else Remaining(values, count, n + 1, rest, needle, max)
  {
    var left: nat := max - n;
    var fewer: nat := left - 1;
    if rest == "" {
      LeftLast(values[n..], count - n, text, needle, fewer, left, value);
      TailNext(values, n, value, []);
    } else {
      LeftNext(values[n..], count - n, text, needle, fewer, left, value, rest);
      TailNext(values, n, value, Values(rest, needle, fewer));
      RemainingIs(values, count, n + 1, rest, needle, max, fewer);
    }
  }

  lemma RemainingIs(values: seq<string>, count: nat, n: nat, text: string, needle: string, max: nat, left: nat)
    requires n <= |values| && n + left == max
    requires values[n..] == Values(text, needle, left) && count == n + Counted(text, needle, left)
    ensures Remaining(values, count, n, text, needle, max)
  {
  }

  lemma LeftLast(values: seq<string>, count: nat, text: string, needle: string, fewer: nat, left: nat, value: string)
    requires left == fewer + 1 && values == Values(text, needle, left) && count == Counted(text, needle, left)
    requires Search(text, needle) == Next(value, "")
    ensures values == [value] + [] && count == 0
  {
    ValuesNext(text, needle, Next(value, ""), fewer, left);
    CountedNext(text, needle, Next(value, ""), fewer, left);
  }

  lemma LeftNext(values: seq<string>, count: nat, text: string, needle: string, fewer: nat, left: nat,
                 value: string, rest: string)
    requires left == fewer + 1 && values == Values(text, needle, left) && count == Counted(text, needle, left)
    requires Search(text, needle) == Next(value, rest) && rest != ""
    ensures values == [value] + Values(rest, needle, fewer) && count == 1 + Counted(rest, needle, fewer)
  {
    ValuesNext(text, needle, Next(value, rest), fewer, left);
    CountedNext(text, needle, Next(value, rest), fewer, left);
  }

  lemma TailNext(values: seq<string>, n: nat, value: string, others: seq<string>)
    requires n <= |values| && values[n..] == [value] + others
    ensures n < |values| && values[n] == value && values[n + 1..] == others
  {
    assert values[n] == values[n..][0];
    assert values[n + 1..] == values[n..][1..];
  }

  // The given column holds the addresses of the first n strings.
  ghost predicate Linked(entries: array2<nat>, member: nat, start: nat, values: seq<string>, n: nat)
    reads entries
  {
    && n <= |values| && n <= entries.Length0 && member < entries.Length1
    && forall k | 0 <= k < n :: entries[k, member] == start + Address(values, k)
  }

  // The result so far: n strings stored and linked, the rest still to be found.
  ghost predicate Partial(pool: Pool, entries: array2<nat>, member: nat, start: nat,
                          values: seq<string>, n: nat)
    reads pool, pool.data, entries
  {
    && pool.Valid() && start + Need(values) < POOL_SIZE
    && Stored(pool, start, values, n) && Linked(entries, member, start, values, n)
  }

  method KeepAndLink(pool: Pool, entries: array2<nat>, member: nat, ghost start: nat,
                     ghost values: seq<string>, n: nat, value: string)
    requires Partial(pool, entries, member, start, values, n)
    requires n < |values| && value == values[n] && n < entries.Length0
    modifies pool, pool.data, entries
    ensures Partial(pool, entries, member, start, values, n + 1)
    ensures pool.data[..start] == old(pool.data[..start])
    ensures forall k, m | 0 <= k < entries.Length0 && 0 <= m < entries.Length1 && m != member ::
              entries[k, m] == old(entries[k, m])
  {
    var dst := KeepNext(pool, start, values, n, value);
    entries[n, member] := dst;
  }

  // The state between two rounds.
  ghost predicate Scanning(pool: Pool, entries: array2<nat>, member: nat, start: nat, values: seq<string>, count: nat,
                           n: nat, done: bool, text: string, needle: string, max: nat)
    reads pool, pool.data, entries
  {
    if done then Partial(pool, entries, member, start, values, |values|) && count == n <= max
    else Partial(pool, entries, member, start, values, n) && Remaining(values, count, n, text, needle, max)
  }

  // A round that finds a value; n' is the count behind it.
  method FinishRound(pool: Pool, entries: array2<nat>, member: nat, n: nat, value: string, last: bool,
                     ghost start: nat, ghost values: seq<string>, ghost count: nat, ghost text: string,
                     ghost needle: string, ghost max: nat, ghost rest: string)
    returns (n': nat)
    requires Scanning(pool, entries, member, start, values, count, n, false, text, needle, max)
    requires n < max <= entries.Length0 && Search(text, needle) == Next(value, rest) && last == (rest == "")
    modifies pool, pool.data, entries
    ensures n' == if last then n else n + 1
    ensures Scanning(pool, entries, member, start, values, count, n', last, rest, needle, max)
    ensures pool.data[..start] == old(pool.data[..start])
    ensures forall k, m | 0 <= k < entries.Length0 && 0 <= m < entries.Length1 && m != member ::
              entries[k, m] == old(entries[k, m])
  {
    RemainingNext(values, count, n, text, needle, max, value, rest);
    KeepAndLink(pool, entries, member, start, values, n, value);
    n' := if last then n else n + 1;
  }

  // Column member of the array receives the address of the k-th value in row
  // k. The precondition on the pool says just that no allocation returns NULL.
  method GetJsonValueByField(pool: Pool, field: string, entries: array2<nat>, member: nat,
                             max: nat, json: string) returns (n: nat)
    requires pool.Valid() && member < entries.Length1 && max <= entries.Length0
    requires pool.index + Need(Values(json, Needle(field), max)) < POOL_SIZE
    modifies pool, pool.data, entries
    ensures n == Counted(json, Needle(field), max)
    ensures var values := Values(json, Needle(field), max);
      Partial(pool, entries, member, old(pool.index), values, |values|)
    ensures pool.data[..old(pool.index)] == old(pool.data[..pool.index])
    ensures forall k, m | 0 <= k < entries.Length0 && 0 <= m < entries.Length1 && m != member ::
              entries[k, m] == old(entries[k, m])
  {
    var needle := Needle(field);
    ghost var start, before := pool.index, pool.data[..pool.index];
    ghost var values, count := Values(json, needle, max), Counted(json, needle, max);
    RemainingStart(json, needle, max);
    var at: nat := 0;
    var done := false;
    ghost var text := json;
    n := 0;
    while n < max && !done
      invariant n <= max && at <= |json| && text == json[at..]
      invariant Scanning(pool, entries, member, start, values, count, n, done, text, needle, max)
      invariant pool.data[..start] == before
      invariant forall k, m | 0 <= k < entries.Length0 && 0 <= m < entries.Length1 && m != member ::
                  entries[k, m] == old(entries[k, m])
      decreases max - n, !done
    {
      n, at, done, text := OneRound(pool, entries, member, n, json, at, needle, start, values, count, text, max);
    }
    if !done {
      RemainingEnd(values, count, text, needle, max);
    }
  }

  method OneRound(pool: Pool, entries: array2<nat>, member: nat, n: nat, json: string, at: nat, needle: string,
                  ghost start: nat, ghost values: seq<string>, ghost count: nat, ghost text: string, ghost max: nat)
    returns (n': nat, at': nat, done: bool, ghost text': string)
    requires Scanning(pool, entries, member, start, values, count, n, false, text, needle, max)
    requires n < max <= entries.Length0 && at <= |json| && text == json[at..] && needle != ""
    modifies pool, pool.data, entries
    ensures Scanning(pool, entries, member, start, values, count, n', done, text', needle, max)
    ensures n' <= max && at' <= |json| && text' == json[at'..] && n' == if done then n else n + 1
    ensures pool.data[..start] == old(pool.data[..start])
    ensures forall k, m | 0 <= k < entries.Length0 && 0 <= m < entries.Length1 && m != member ::
              entries[k, m] == old(entries[k, m])
  {
    var found, value, behind;
    ghost var rest;
    found, value, behind, rest := SearchFrom(json, at, needle, text);
    if !found {
      RemainingStop(values, count, n, text, needle, max);
      n', at', done, text' := n, at, true, text;
    } else {
      done := behind == |json|;
      n' := FinishRound(pool, entries, member, n, value, done, start, values, count, text, needle, max, rest);
      at', text' := behind, rest;
    }
  }

  lemma KeptBehind(before: string, now: string, start: nat, value: string)
    requires start <= |before| && now == before + (value + "\0")
    ensures now[start..] == before[start..] + (value + "\0") && now[..start] == before[..start]
  {
  }
}
