/**
 Output symbols: the sorted, duplicate-free, '+'-joined list of the symbols of the received
 packets, and the filter that removes symbols from the joined string again.
 */
module Symbols {

  const NO_RESPONSE := "NORESPONSE"

  // ---------- Python strings ----------

  // a <= b, by code points
  predicate LexLe(a: string, b: string) {
    a == [] || (b != [] && (a[0] < b[0] || (a[0] == b[0] && LexLe(a[1..], b[1..]))))
  }

  // a comes before b, or is b, exactly if a is the beginning of b or has the smaller code point
  // at the first position where they differ.
  lemma {:induction false} LexLeIff(a: string, b: string)
    ensures LexLe(a, b) <==> a <= b || exists k :: Differs(a, b, k) && a[k] < b[k]
  {
    if a == [] || b == [] {
      assert forall k :: !Differs(a, b, k);
    } else if a[0] != b[0] {
      assert Differs(a, b, 0) && forall k :: k > 0 ==> !Differs(a, b, k);
      assert !(a <= b);
    } else {
      LexLeIff(a[1..], b[1..]);
      assert a <= b <==> a[1..] <= b[1..] by {
        assert a == [a[0]] + a[1..] && b == [b[0]] + b[1..];
      }
      forall k: nat
        ensures Differs(a, b, k + 1) <==> Differs(a[1..], b[1..], k)
      {
        if k < |a| - 1 && k < |b| - 1 {
          assert a[..k + 1] == [a[0]] + a[1..][..k] && b[..k + 1] == [b[0]] + b[1..][..k];
          assert a[1..][..k] == a[..k + 1][1..] && b[1..][..k] == b[..k + 1][1..];
        }
      }
      if k :| Differs(a, b, k) && a[k] < b[k] {
        assert k > 0 && Differs(a[1..], b[1..], k - 1) && a[1..][k - 1] < b[1..][k - 1];
      }
      if k :| Differs(a[1..], b[1..], k) && a[1..][k] < b[1..][k] {
        assert Differs(a, b, k + 1) && a[k + 1] < b[k + 1];
      }
    }
  }

  // k is the first position where a and b differ.
  predicate Differs(a: string, b: string, k: int) {
    0 <= k < |a| && k < |b| && a[..k] == b[..k] && a[k] != b[k]
  }

  lemma LexTotal(a: string, b: string)
    ensures LexLe(a, b) || LexLe(b, a)
  {
  }

  lemma LexAntisymmetric(a: string, b: string)
    requires LexLe(a, b) && LexLe(b, a)
    ensures a == b
  {
    if a != [] {
      LexAntisymmetric(a[1..], b[1..]);
      assert a == [a[0]] + a[1..] && b == [b[0]] + b[1..];
    }
  }

  lemma LexTransitive(a: string, b: string, c: string)
    requires LexLe(a, b) && LexLe(b, c)
    ensures LexLe(a, c)
  {
  }

  // '+'.join(xs)
  function Join(xs: seq<string>): string {
    if xs == [] then ""
    else if |xs| == 1 then xs[0]
    else xs[0] + "+" + Join(xs[1..])
  }

  // s.split('+')
  function Split(s: string): (xs: seq<string>)
    ensures xs != [] && forall i | 0 <= i < |xs| :: PlusFree(xs[i])
  {
    if s == [] then [""]
    else if s[0] == '+' then [""] + Split(s[1..])
    else
      var rest := Split(s[1..]);
      [[s[0]] + rest[0]] + rest[1..]
  }

  predicate PlusFree(s: string) {
    '+' !in s
  }

  lemma {:induction false} SplitPart(x: string)
    requires PlusFree(x)
    ensures Split(x) == [x]
  {
    if x != [] {
      SplitPart(x[1..]);
      assert x == [x[0]] + x[1..];
    }
  }

  lemma {:induction false} SplitFirst(x: string, rest: string)
    requires PlusFree(x)
    ensures Split(x + "+" + rest) == [x] + Split(rest)
  {
    var s := x + "+" + rest;
    if x == [] {
      assert s[1..] == rest;
    } else {
      SplitFirst(x[1..], rest);
      assert s[1..] == x[1..] + "+" + rest;
      assert x == [x[0]] + x[1..];
    }
  }

  lemma {:induction false} SplitJoin(xs: seq<string>)
    requires xs != [] && forall i | 0 <= i < |xs| :: PlusFree(xs[i])
    ensures Split(Join(xs)) == xs
  {
    if |xs| == 1 {
      SplitPart(xs[0]);
    } else {
      SplitJoin(xs[1..]);
      SplitFirst(xs[0], Join(xs[1..]));
    }
  }

  // ---------- sorted(set(xs)) ----------

  ghost predicate Ascending(xs: seq<string>) {
    forall i, j | 0 <= i < j < |xs| :: LexLe(xs[i], xs[j]) && xs[i] != xs[j]
  }

  function Elements(xs: seq<string>): set<string> {
    set x | x in xs
  }

  lemma NoElements(xs: seq<string>)
    ensures xs == [] <==> Elements(xs) == {}
  {
    assert xs != [] ==> xs[0] in Elements(xs);
  }

  lemma ElementsOf(x: string, xs: seq<string>)
    ensures Elements([x] + xs) == {x} + Elements(xs)
  {
    assert forall y :: y in [x] + xs <==> y == x || y in xs;
  }

  function Insert(x: string, xs: seq<string>): (r: seq<string>)
    requires Ascending(xs)
    ensures Ascending(r) && Elements(r) == Elements(xs) + {x}
  {
    if xs == [] then [x]
    else if x == xs[0] then xs
    else if LexLe(x, xs[0]) then
      Below(x, xs);
      ElementsOf(x, xs);
      [x] + xs
    else
      LexTotal(x, xs[0]);
      var rest := Insert(x, xs[1..]);
      HeadOfAscending(xs);
      LeastFirst(xs[0], rest);
      ElementsOf(xs[0], rest);
      [xs[0]] + rest
  }

  // Every element of xs comes after x.
  ghost predicate AllAfter(x: string, xs: seq<string>) {
    forall y | y in Elements(xs) :: LexLe(x, y) && x != y
  }

  lemma LeastFirst(x: string, xs: seq<string>)
    requires Ascending(xs) && AllAfter(x, xs)
    ensures Ascending([x] + xs)
  {
    assert forall j | 0 <= j < |xs| :: xs[j] in Elements(xs);
  }

  lemma HeadOfAscending(xs: seq<string>)
    requires Ascending(xs) && xs != []
    ensures Ascending(xs[1..]) && AllAfter(xs[0], xs[1..]) && Elements(xs) == {xs[0]} + Elements(xs[1..])
  {
    assert [xs[0]] + xs[1..] == xs;
    ElementsOf(xs[0], xs[1..]);
  }

  lemma Below(x: string, xs: seq<string>)
    requires Ascending(xs) && xs != [] && LexLe(x, xs[0]) && x != xs[0]
    ensures Ascending([x] + xs)
  {
    forall j | 0 <= j < |xs|
      ensures LexLe(x, xs[j]) && x != xs[j]
    {
      if j > 0 {
        LexTransitive(x, xs[0], xs[j]);
        if x == xs[j] {
          LexAntisymmetric(x, xs[0]);
        }
      }
    }
    LeastFirst(x, xs);
  }

  function SortedSet(xs: seq<string>): (r: seq<string>)
    ensures Ascending(r) && Elements(r) == Elements(xs)
  {
    if xs == [] then []
    else
      assert Elements(xs) == {xs[0]} + Elements(xs[1..]);
      Insert(xs[0], SortedSet(xs[1..]))
  }

  // An ascending list is determined by its elements.
  lemma {:induction false} AscendingUnique(xs: seq<string>, ys: seq<string>)
    requires Ascending(xs) && Ascending(ys) && Elements(xs) == Elements(ys)
    ensures xs == ys
  {
    if xs == [] {
      NoElements(xs);
      NoElements(ys);
    } else {
      assert xs[0] in Elements(xs);
      NoElements(ys);
      assert ys[0] in Elements(ys);
      var i :| 0 <= i < |ys| && ys[i] == xs[0];
      var j :| 0 <= j < |xs| && xs[j] == ys[0];
      if i > 0 && j > 0 {
        LexAntisymmetric(xs[0], ys[0]);
      }
      assert xs[0] == ys[0];
      assert Elements(xs[1..]) == Elements(xs) - {xs[0]};
      assert Elements(ys[1..]) == Elements(ys) - {ys[0]};
      AscendingUnique(xs[1..], ys[1..]);
    }
  }

  // ---------- output_symbol and filter_symbol ----------

  // [x for x in xs if x not in filter]
  function Keep(xs: seq<string>, filter: set<string>): (r: seq<string>)
    ensures Elements(r) == Elements(xs) - filter
  {
    if xs == [] then []
    else
      assert Elements(xs) == {xs[0]} + Elements(xs[1..]);
      if xs[0] in filter then Keep(xs[1..], filter)
      else
        assert Elements([xs[0]] + Keep(xs[1..], filter)) == {xs[0]} + Elements(Keep(xs[1..], filter));
        [xs[0]] + Keep(xs[1..], filter)
  }

  // The output symbol of packets, given by the symbol of each packet.
  function OutputSymbol(symbols: seq<string>): string {
    if |symbols| == 0 then NO_RESPONSE else Join(SortedSet(symbols))
  }

  function FilterSymbol(symbol: string, filter: set<string>): string {
    var kept := Join(Keep(Split(symbol), filter));
    if kept == "" then NO_RESPONSE else kept
  }

  lemma {:induction false} KeepAscending(xs: seq<string>, filter: set<string>)
    requires Ascending(xs)
    ensures Ascending(Keep(xs, filter))
  {
    if xs != [] {
      KeepAscending(xs[1..], filter);
      var rest := Keep(xs[1..], filter);
      assert forall j | 0 <= j < |rest| :: rest[j] in Elements(rest);
    }
  }

  ghost predicate Plain(symbols: seq<string>) {
    forall s | s in symbols :: s != "" && PlusFree(s)
  }

  lemma JoinNotEmpty(xs: seq<string>)
    requires xs != [] && xs[0] != ""
    ensures Join(xs) != ""
  {
  }

  // Filtering commutes with abstraction, for plain symbols.
  lemma FilterCommutes(symbols: seq<string>, filter: set<string>)
    requires Plain(symbols)
    ensures FilterSymbol(OutputSymbol(symbols), filter) == OutputSymbol(Keep(symbols, filter))
  {
    var sorted := SortedSet(symbols);
    assert forall i | 0 <= i < |sorted| :: sorted[i] in Elements(sorted);
    if symbols == [] {
      SplitPart(NO_RESPONSE);
      assert Keep([NO_RESPONSE], filter) == (if NO_RESPONSE in filter then [] else [NO_RESPONSE]) by {
        assert Keep([NO_RESPONSE][1..], filter) == [];
      }
    } else {
      assert symbols[0] in Elements(symbols) && symbols[0] in Elements(sorted);
      SplitJoin(sorted);
      var kept := Keep(sorted, filter);
      KeepAscending(sorted, filter);
      AscendingUnique(kept, SortedSet(Keep(symbols, filter)));
      if kept == [] {
        NoElements(Keep(symbols, filter));
      } else {
        assert kept[0] in Elements(kept);
        JoinNotEmpty(kept);
        assert Keep(symbols, filter) != [];
      }
    }
  }

  lemma {:induction false} JoinHasPlus(xs: seq<string>, i: nat)
    requires i < |xs| && !PlusFree(xs[i])
    ensures !PlusFree(Join(xs))
  {
    if |xs| > 1 && i > 0 {
      JoinHasPlus(xs[1..], i - 1);
    }
  }

  // A symbol with a '+': the filter of all parts empties the filtered symbol, but keeps the
  // packet.
  lemma PlusBreaks(symbols: seq<string>, s: string) returns (filter: set<string>)
    requires s in symbols && !PlusFree(s)
    ensures FilterSymbol(OutputSymbol(symbols), filter) != OutputSymbol(Keep(symbols, filter))
  {
    var parts := Split(OutputSymbol(symbols));
    filter := Elements(parts);
    NoElements(Keep(parts, filter));
    var kept := Keep(symbols, filter);
    var sorted := SortedSet(kept);
    assert s !in filter;
    assert s in Elements(symbols) && s in Elements(kept) && s in Elements(sorted);
    var i :| 0 <= i < |sorted| && sorted[i] == s;
    JoinHasPlus(sorted, i);
    assert PlusFree(NO_RESPONSE);
  }

  // An empty symbol: the filter of all other symbols leaves it alone.
  lemma EmptyBreaks(symbols: seq<string>) returns (filter: set<string>)
    requires "" in symbols && forall s | s in symbols :: PlusFree(s)
    ensures FilterSymbol(OutputSymbol(symbols), filter) != OutputSymbol(Keep(symbols, filter))
  {
    filter := Elements(symbols) - {""};
    var sorted := SortedSet(symbols);
    assert forall i | 0 <= i < |sorted| :: sorted[i] in Elements(sorted);
    assert "" in Elements(symbols) && "" in Elements(sorted);
    SplitJoin(sorted);
    KeepAscending(sorted, filter);
    var kept := Keep(symbols, filter);
    assert Elements(kept) == {""} && Elements(Keep(sorted, filter)) == {""} && Elements([""]) == {""};
    AscendingUnique(Keep(sorted, filter), [""]);
    AscendingUnique(SortedSet(kept), [""]);
    assert kept != [];
  }

  // Main result: the condition is exact. Filtering commutes with abstraction for every filter
  // exactly when all symbols are non-empty and free of '+'.
  lemma FilterCommutesIff(symbols: seq<string>)
    ensures (forall filter: set<string> ::
               FilterSymbol(OutputSymbol(symbols), filter) == OutputSymbol(Keep(symbols, filter)))
            <==> Plain(symbols)
  {
    if Plain(symbols) {
      forall filter: set<string>
        ensures FilterSymbol(OutputSymbol(symbols), filter) == OutputSymbol(Keep(symbols, filter))
      {
        FilterCommutes(symbols, filter);
      }
    } else {
      var filter;
      if s :| s in symbols && !PlusFree(s) {
        filter := PlusBreaks(symbols, s);
      } else {
        filter := EmptyBreaks(symbols);
      }
    }
  }

  // The filter of `step`, which always hides the packets that arrive cyclically.
  const CYCLIC := {"LL_ADV_IND", "LL_DATA"}

  // What the learner sees depends only on the set of symbols outside the filter, so packets
  // that arrive cyclically may be inserted, duplicated and reordered, and all others may be
  // duplicated and reordered.
  lemma CyclicPacketsInvisible(a: seq<string>, b: seq<string>, extra: set<string>)
    requires Plain(a) && Plain(b) && Elements(a) - CYCLIC == Elements(b) - CYCLIC
    ensures FilterSymbol(OutputSymbol(a), extra + CYCLIC) == FilterSymbol(OutputSymbol(b), extra + CYCLIC)
  {
    var filter := extra + CYCLIC;
    FilterCommutes(a, filter);
    FilterCommutes(b, filter);
    var x, y := Keep(a, filter), Keep(b, filter);
    assert Elements(x) == (Elements(a) - CYCLIC) - extra && Elements(y) == (Elements(b) - CYCLIC) - extra;
    AscendingUnique(SortedSet(x), SortedSet(y));
    NoElements(x);
    NoElements(y);
  }

  lemma NothingLeft(symbols: seq<string>, filter: set<string>)
    requires Plain(symbols) && Elements(symbols) <= filter
    ensures FilterSymbol(OutputSymbol(symbols), filter) == NO_RESPONSE
  {
    FilterCommutes(symbols, filter);
    NoElements(Keep(symbols, filter));
  }

  lemma OneLeft(symbols: seq<string>, symbol: string, filter: set<string>)
    requires Plain(symbols) && Elements(symbols) - filter == {symbol}
    ensures FilterSymbol(OutputSymbol(symbols), filter) == symbol
  {
    var kept := Keep(symbols, filter);
    FilterCommutes(symbols, filter);
    NoElements(kept);
    assert Elements([symbol]) == {symbol};
    AscendingUnique(SortedSet(kept), [symbol]);
  }

  lemma CyclicPlain(cyclic: seq<string>)
    requires forall s | s in cyclic :: s == "LL_ADV_IND" || s == "LL_DATA"
    ensures Plain(cyclic) && Elements(cyclic) <= CYCLIC
  {
  }

  // What the learner gets if nothing has arrived, or nothing but packets that arrive cyclically
  // and filtered ones; and what it gets for a packet that is neither.
  lemma LearnerSees(cyclic: seq<string>, symbol: string, extra: set<string>)
    requires forall s | s in cyclic :: s == "LL_ADV_IND" || s == "LL_DATA"
    requires symbol != "" && PlusFree(symbol) && symbol !in CYCLIC && symbol !in extra
    ensures OutputSymbol([]) == "NORESPONSE"
    ensures FilterSymbol(OutputSymbol(cyclic), extra + CYCLIC) == "NORESPONSE"
    ensures FilterSymbol(OutputSymbol(cyclic + [symbol]), extra + CYCLIC) == symbol
  {
    CyclicPlain(cyclic);
    NothingLeft(cyclic, extra + CYCLIC);
    assert Elements(cyclic + [symbol]) == Elements(cyclic) + {symbol};
    OneLeft(cyclic + [symbol], symbol, extra + CYCLIC);
  }

  lemma CyclicSymbols(symbol: string)
    ensures symbol in CYCLIC <==> symbol == "LL_ADV_IND" || symbol == "LL_DATA"
  {
  }
}
