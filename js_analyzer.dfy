/** The Inspector's JavaScript function analyzer: numbering the functions a
    list of pattern matches finds (FUNC_<name>_<NNN>, first match of each
    name only) and inserting a `// FUNC_...` comment line before each one. */
module JsAnalyzer {
  import opened Util
  import opened TraceBuffer

  /** One regex match: the captured name and the match's start index. */
  datatype Match = Match(name: string, index: nat)

  datatype FuncInfo = FuncInfo(name: string, funcId: string, position: nat)

  /** `FUNC_${name}_${String(counter).padStart(3, '0')}` */
  function FuncId(name: string, counter: nat): string {
    "FUNC_" + name + "_" + PadStart(NatToString(counter), 3, '0')
  }

  /** A funcId is "FUNC_", the name, '_' and at least three decimal digits
      that read as the counter (zero-padded below 100). */
  lemma FuncIdSpec(name: string, counter: nat)
    ensures var r := FuncId(name, counter);
            |r| >= 5 + |name| + 4 &&
            r[..5] == "FUNC_" && r[5..5 + |name|] == name && r[5 + |name|] == '_' &&
            AllDigits(r[6 + |name|..]) &&
            r[|r| - |NatToString(counter)|..] == NatToString(counter)
  {
    var s := NatToString(counter);
    var digits := PadStart(s, 3, '0');
    var r := FuncId(name, counter);
    assert r == "FUNC_" + name + "_" + digits;
    PaddedDigits(s);
    FuncIdShape(name, digits);
    SuffixOfSuffix(r, 6 + |name|, |digits| - |s|);
    assert r[|r| - |s|..] == digits[|digits| - |s|..] == s;
  }

  lemma SuffixOfSuffix<T>(r: seq<T>, a: nat, b: nat)
    requires a + b <= |r|
    ensures r[a..][b..] == r[a + b..]
  {
  }

  /** Zero-padding a digit string leaves a digit string. */
  lemma PaddedDigits(s: string)
    requires AllDigits(s)
    ensures AllDigits(PadStart(s, 3, '0'))
  {
    var digits := PadStart(s, 3, '0');
    forall i | 0 <= i < |digits|
      ensures IsDigit(digits[i])
    {
      if i >= |digits| - |s| {
        assert digits[i] == digits[|digits| - |s|..][i - (|digits| - |s|)];
      }
    }
  }

  /** Where the parts of `FUNC_<name>_<digits>` sit. */
  lemma FuncIdShape(name: string, digits: string)
    ensures var r := "FUNC_" + name + "_" + digits;
            |r| == 6 + |name| + |digits| &&
            r[..5] == "FUNC_" && r[5..5 + |name|] == name && r[5 + |name|] == '_' && r[6 + |name|..] == digits
  {
    var r := "FUNC_" + name + "_" + digits;
    assert r == "FUNC_" + (name + ("_" + digits));
  }

  /** `functions.find(f => f.name === name)` finds something. */
  predicate Known(fs: seq<FuncInfo>, name: string) {
    exists k :: 0 <= k < |fs| && fs[k].name == name
  }

  /** The matches of all patterns, pattern after pattern. */
  function Flatten(ps: seq<seq<Match>>): seq<Match> {
    if ps == [] then [] else Flatten(ps[..|ps| - 1]) + ps[|ps| - 1]
  }

  /** The `functions` list after the given matches: a match whose name is
      non-empty and not yet listed is appended with the next counter value. */
  function Analyzed(ms: seq<Match>): seq<FuncInfo> {
    if ms == [] then []
    else
      var fs := Analyzed(ms[..|ms| - 1]);
      var m := ms[|ms| - 1];
      if m.name != "" && !Known(fs, m.name) then fs + [FuncInfo(m.name, FuncId(m.name, |fs| + 1), m.index)]
      else fs
  }

  lemma AnalyzedStep(ms: seq<Match>, m: Match)
    ensures Analyzed(ms + [m]) == if m.name != "" && !Known(Analyzed(ms), m.name)
                                  then Analyzed(ms) + [FuncInfo(m.name, FuncId(m.name, |Analyzed(ms)| + 1), m.index)]
                                  else Analyzed(ms)
  {
    assert (ms + [m])[..|ms|] == ms;
  }

  /** analyzeJavaScript over the matches of each pattern, in pattern order. */
  method AnalyzeJavaScript(patterns: seq<seq<Match>>) returns (functions: seq<FuncInfo>)
    ensures functions == Analyzed(Flatten(patterns))
  {
    functions := [];
    var counter := 1;
    for p := 0 to |patterns|
      invariant functions == Analyzed(Flatten(patterns[..p]))
      invariant counter == |functions| + 1
    {
      assert patterns[..p + 1][..p] == patterns[..p];
      functions, counter := ScanPattern(functions, counter, patterns[p], Flatten(patterns[..p]));
    }
    assert patterns[..|patterns|] == patterns;
  }

  /** The forEach callback for one pattern: its matches in order, each new
      non-empty name appended with the current counter. */
  method ScanPattern(functions: seq<FuncInfo>, counter: nat, matches: seq<Match>, ghost before: seq<Match>)
    returns (functions': seq<FuncInfo>, counter': nat)
    requires functions == Analyzed(before) && counter == |functions| + 1
    ensures functions' == Analyzed(before + matches) && counter' == |functions'| + 1
  {
    functions', counter' := functions, counter;
    ghost var seen := before;
    var i := 0;
    assert before + matches[..0] == before;
    while i < |matches|
      invariant i <= |matches|
      invariant seen == before + matches[..i]
      invariant functions' == Analyzed(seen)
      invariant counter' == |functions'| + 1
    {
      var m := matches[i];
      functions', counter' := ScanMatch(functions', counter', m, seen);
      PrefixSnoc(before, matches, i);
      seen := seen + [m];
      i := i + 1;
    }
    assert matches[..|matches|] == matches;
  }

  /** One match: a named function not yet known is recorded with the next funcId. */
  method ScanMatch(functions: seq<FuncInfo>, counter: nat, m: Match, ghost seen: seq<Match>)
    returns (functions': seq<FuncInfo>, counter': nat)
    requires functions == Analyzed(seen) && counter == |functions| + 1
    ensures functions' == Analyzed(seen + [m]) && counter' == |functions'| + 1
  {
    AnalyzedStep(seen, m);
    functions', counter' := functions, counter;
    var found := Known(functions, m.name);
    if m.name != "" && !found {
      var funcId := FuncId(m.name, counter);
      functions' := functions + [FuncInfo(m.name, funcId, m.index)];
      counter' := counter + 1;
    }
  }

  lemma PrefixSnoc<T>(a: seq<T>, b: seq<T>, i: nat)
    requires i < |b|
    ensures a + b[..i + 1] == (a + b[..i]) + [b[i]]
  {
    assert b[..i + 1] == b[..i] + [b[i]];
  }

  /** The index of the first match with that name, |ms| when there is none. */
  function FirstAt(ms: seq<Match>, name: string): (r: nat)
    ensures r <= |ms|
    ensures r < |ms| ==> ms[r].name == name
    ensures forall j :: 0 <= j < r ==> ms[j].name != name
  {
    if ms == [] then 0
    else
      var i := FirstAt(ms[..|ms| - 1], name);
      if i < |ms| - 1 then i
      else if ms[|ms| - 1].name == name then |ms| - 1
      else |ms|
  }

  /** analyzeJavaScript lists each name once, numbered 001, 002, …
      consecutively, and lists every non-empty matched name. */
  lemma AnalyzedIds(ms: seq<Match>)
    ensures var fs := Analyzed(ms);
            (forall k1, k2 :: 0 <= k1 < k2 < |fs| ==> fs[k1].name != fs[k2].name) &&
            (forall k :: 0 <= k < |fs| ==> fs[k].name != "" && fs[k].funcId == FuncId(fs[k].name, k + 1)) &&
            (forall j :: 0 <= j < |ms| && ms[j].name != "" ==> Known(fs, ms[j].name))
  {
    AnalyzedNumbered(ms);
    AnalyzedCovers(ms);
  }

  lemma {:induction false} AnalyzedNumbered(ms: seq<Match>)
    ensures DistinctNames(Analyzed(ms)) && Numbered(Analyzed(ms))
  {
    if ms != [] {
      var init := ms[..|ms| - 1];
      AnalyzedNumbered(init);
      IdsStep(Analyzed(init), ms[|ms| - 1]);
    }
  }

  lemma {:induction false} AnalyzedCovers(ms: seq<Match>)
    ensures forall j :: 0 <= j < |ms| && ms[j].name != "" ==> Known(Analyzed(ms), ms[j].name)
  {
    if ms != [] {
      var init := ms[..|ms| - 1];
      AnalyzedCovers(init);
      KnownStep(Analyzed(init), ms[|ms| - 1]);
      var g := Analyzed(ms);
      forall j | 0 <= j < |ms| && ms[j].name != ""
        ensures Known(g, ms[j].name)
      {
        if j < |init| {
          assert init[j] == ms[j];
        }
      }
    }
  }

  /** One match lists its own name and forgets none. */
  lemma KnownStep(f: seq<FuncInfo>, m: Match)
    ensures var g := if m.name != "" && !Known(f, m.name) then f + [FuncInfo(m.name, FuncId(m.name, |f| + 1), m.index)] else f;
            (m.name != "" ==> Known(g, m.name)) && (forall n :: Known(f, n) ==> Known(g, n))
  {
    if m.name != "" && !Known(f, m.name) {
      var g := f + [FuncInfo(m.name, FuncId(m.name, |f| + 1), m.index)];
      assert g[|f|].name == m.name;
      forall n | Known(f, n)
        ensures Known(g, n)
      {
        var k :| 0 <= k < |f| && f[k].name == n;
        assert g[k] == f[k];
      }
    }
  }

  predicate DistinctNames(fs: seq<FuncInfo>) {
    forall k1, k2 :: 0 <= k1 < k2 < |fs| ==> fs[k1].name != fs[k2].name
  }

  predicate Numbered(fs: seq<FuncInfo>) {
    forall k :: 0 <= k < |fs| ==> fs[k].name != "" && fs[k].funcId == FuncId(fs[k].name, k + 1)
  }

  /** One match keeps the names distinct and numbered. */
  lemma IdsStep(f: seq<FuncInfo>, m: Match)
    requires DistinctNames(f) && Numbered(f)
    ensures var g := if m.name != "" && !Known(f, m.name) then f + [FuncInfo(m.name, FuncId(m.name, |f| + 1), m.index)] else f;
            DistinctNames(g) && Numbered(g)
  {
    if m.name != "" && !Known(f, m.name) {
      var g := f + [FuncInfo(m.name, FuncId(m.name, |f| + 1), m.index)];
      forall k1, k2 | 0 <= k1 < k2 < |g|
        ensures g[k1].name != g[k2].name
      {
        assert g[k1] == f[k1];
        if k2 < |f| {
          assert g[k2] == f[k2];
        }
      }
      forall k | 0 <= k < |g|
        ensures g[k].name != "" && g[k].funcId == FuncId(g[k].name, k + 1)
      {
        if k < |f| {
          assert g[k] == f[k];
        }
      }
    }
  }

  /** Each entry records the position of its name's first match, and the
      list is in the order of those first matches. */
  lemma {:induction false} AnalyzedPositions(ms: seq<Match>)
    ensures PositionsAt(Analyzed(ms), ms) && InFirstOrder(Analyzed(ms), ms)
  {
    if ms != [] {
      var init := ms[..|ms| - 1];
      AnalyzedPositions(init);
      AnalyzedCovers(init);
      PositionsStep(init, ms[|ms| - 1], Analyzed(init));
      InitLast(ms);
    }
  }

  /** Every entry's position is the index of its name's first match. */
  predicate PositionsAt(fs: seq<FuncInfo>, ms: seq<Match>) {
    forall k :: 0 <= k < |fs| ==> FirstAt(ms, fs[k].name) < |ms| && fs[k].position == ms[FirstAt(ms, fs[k].name)].index
  }

  /** Entries come in the order of their names' first matches. */
  predicate InFirstOrder(fs: seq<FuncInfo>, ms: seq<Match>) {
    forall k1, k2 :: 0 <= k1 < k2 < |fs| ==> FirstAt(ms, fs[k1].name) < FirstAt(ms, fs[k2].name)
  }

  /** FirstAt after one more match. */
  lemma FirstAtSnoc(init: seq<Match>, m: Match, n: string)
    ensures FirstAt(init + [m], n) ==
            if FirstAt(init, n) < |init| then FirstAt(init, n) else if m.name == n then |init| else |init| + 1
  {
    assert (init + [m])[..|init|] == init;
  }

  /** One match keeps positions and order of first matches. */
  lemma PositionsStep(init: seq<Match>, m: Match, f: seq<FuncInfo>)
    requires PositionsAt(f, init) && InFirstOrder(f, init)
    requires forall j :: 0 <= j < |init| && init[j].name != "" ==> Known(f, init[j].name)
    ensures var g := if m.name != "" && !Known(f, m.name) then f + [FuncInfo(m.name, FuncId(m.name, |f| + 1), m.index)] else f;
            PositionsAt(g, init + [m]) && InFirstOrder(g, init + [m])
  {
    var ms := init + [m];
    forall k | 0 <= k < |f|
      ensures FirstAt(ms, f[k].name) == FirstAt(init, f[k].name)
    {
      FirstAtSnoc(init, m, f[k].name);
    }
    assert ms[..|init|] == init;
    if m.name != "" && !Known(f, m.name) {
      var g := f + [FuncInfo(m.name, FuncId(m.name, |f| + 1), m.index)];
      FirstAtSnoc(init, m, m.name);
      // m's name is new, so it does not occur earlier in the matches
      forall j | 0 <= j < |init|
        ensures init[j].name != m.name
      {
      }
      assert FirstAt(ms, m.name) == |init|;
      forall k | 0 <= k < |g|
        ensures FirstAt(ms, g[k].name) < |ms| && g[k].position == ms[FirstAt(ms, g[k].name)].index
      {
        if k < |f| {
          assert g[k] == f[k];
        }
      }
      forall k1, k2 | 0 <= k1 < k2 < |g|
        ensures FirstAt(ms, g[k1].name) < FirstAt(ms, g[k2].name)
      {
        assert g[k1] == f[k1];
        if k2 < |f| {
          assert g[k2] == f[k2];
        }
      }
    }
  }

  /** `// ${funcId}\n` */
  function Comment(f: FuncInfo): string {
    "// " + f.funcId + "\n"
  }

  function Position(f: FuncInfo): real {
    f.position as real
  }

  predicate Within(fs: seq<FuncInfo>, n: nat) {
    forall k :: 0 <= k < |fs| ==> fs[k].position <= n
  }

  function CommentsLength(fs: seq<FuncInfo>): nat {
    if fs == [] then 0 else |Comment(fs[0])| + CommentsLength(fs[1..])
  }

  /** The annotated code for functions sorted by descending position: the
      code before the first (highest) position, annotated for the rest, then
      that function's comment, then the code from its position on. */
  function Annotated(code: string, fs: seq<FuncInfo>): (r: string)
    requires SortedDesc(fs, Position) && Within(fs, |code|)
    ensures |r| == |code| + CommentsLength(fs)
    decreases |fs|
  {
    if fs == [] then code
    else
      var p := fs[0].position;
      Annotated(code[..p], fs[1..]) + Comment(fs[0]) + code[p..]
  }

  /** `s.slice(0, pos) + comment + s.slice(pos)` */
  function InsertAt(s: string, pos: nat, comment: string): string
    requires pos <= |s|
  {
    s[..pos] + comment + s[pos..]
  }

  /** Inserting inside the first part of a concatenation. */
  lemma InsertAtAppend(x: string, tail: string, pos: nat, comment: string)
    requires pos <= |x|
    ensures InsertAt(x + tail, pos, comment) == InsertAt(x, pos, comment) + tail
  {
    assert (x + tail)[..pos] == x[..pos];
    assert (x + tail)[pos..] == x[pos..] + tail;
  }

  /** The functions after the first of a sorted, in-range list are sorted
      and lie at or below the first one's position. */
  lemma SortedTail(fs: seq<FuncInfo>, n: nat)
    requires fs != [] && SortedDesc(fs, Position) && Within(fs, n)
    ensures fs[0].position <= n
    ensures SortedDesc(fs[1..], Position) && Within(fs[1..], fs[0].position)
  {
    var rest := fs[1..];
    forall i, j | 0 <= i < j < |rest|
      ensures Position(rest[i]) >= Position(rest[j])
    {
      assert rest[i] == fs[i + 1] && rest[j] == fs[j + 1];
    }
    forall k | 0 <= k < |rest|
      ensures rest[k].position <= fs[0].position
    {
      assert rest[k] == fs[k + 1];
      assert Position(fs[0]) >= Position(fs[k + 1]);
    }
  }

  /** Dropping the last function of a sorted, in-range list keeps it so;
      the last one lies at or below every other. */
  lemma SortedInit(fs: seq<FuncInfo>, f: FuncInfo, n: nat)
    requires SortedDesc(fs + [f], Position) && Within(fs + [f], n)
    ensures SortedDesc(fs, Position) && Within(fs, n) && f.position <= n
    ensures forall k :: 0 <= k < |fs| ==> f.position <= fs[k].position
    ensures fs != [] ==> (fs + [f])[1..] == fs[1..] + [f] && (fs + [f])[0] == fs[0]
  {
    assert forall k :: 0 <= k < |fs| ==> fs[k] == (fs + [f])[k];
    assert (fs + [f])[|fs|] == f;
    forall k | 0 <= k < |fs|
      ensures f.position <= fs[k].position
    {
      assert Position((fs + [f])[k]) >= Position((fs + [f])[|fs|]);
    }
    if fs != [] {
      assert (fs + [f])[1..] == fs[1..] + [f];
    }
  }

  /** Inserting the comment of a function at a position no higher than any
      already handled extends the annotation by that function. */
  lemma {:induction false} AnnotatedSnoc(code: string, fs: seq<FuncInfo>, f: FuncInfo)
    requires SortedDesc(fs + [f], Position) && Within(fs + [f], |code|)
    ensures SortedDesc(fs, Position) && Within(fs, |code|)
    ensures f.position <= |Annotated(code, fs)|
    ensures Annotated(code, fs + [f]) == InsertAt(Annotated(code, fs), f.position, Comment(f))
    decreases |fs|
  {
    SortedInit(fs, f, |code|);
    var g := fs + [f];
    SortedTail(g, |code|);
    if fs == [] {
      assert g[1..] == [];
      assert code[..f.position][..f.position] == code[..f.position];
    } else {
      var p := fs[0].position;
      assert g[0] == fs[0] && g[1..] == fs[1..] + [f];
      AnnotatedSnoc(code[..p], fs[1..], f);
      var x := Annotated(code[..p], fs[1..]);
      var y := Annotated(code[..p], fs[1..] + [f]);
      var tail := Comment(fs[0]) + code[p..];
      assert Annotated(code, g) == y + Comment(fs[0]) + code[p..];
      assert Annotated(code, fs) == x + Comment(fs[0]) + code[p..];
      ConcatAssoc(y, Comment(fs[0]), code[p..]);
      ConcatAssoc(x, Comment(fs[0]), code[p..]);
      InsertAtAppend(x, tail, f.position, Comment(f));
    }
  }

  /** addFuncIdComments: the functions are sorted by descending position
      (stably, so equal positions keep discovery order) and each comment is
      spliced into the code, highest position first. */
  method AddFuncIdComments(code: string, patterns: seq<seq<Match>>) returns (result: string, functions: seq<FuncInfo>)
    requires forall m :: m in Flatten(patterns) ==> m.index <= |code|
    ensures functions == SortDesc(Analyzed(Flatten(patterns)), Position)
    ensures SortedDesc(functions, Position) && Within(functions, |code|)
    ensures result == Annotated(code, functions)
  {
    var found := AnalyzeJavaScript(patterns);
    AnalyzedWithin(Flatten(patterns), |code|);
    functions := SortDesc(found, Position);
    SortedWithin(found, |code|);
    result := code;
    for i := 0 to |functions|
      invariant result == Annotated(code, functions[..i])
    {
      var func := functions[i];
      var comment := "// " + func.funcId + "\n";
      var pos := func.position;
      SpliceStep(code, functions, i);
      result := Slice(result, 0, pos) + comment + SliceFrom(result, pos);
    }
    assert functions[..|functions|] == functions;
  }

  /** Every recorded position is the index of some match. */
  lemma AnalyzedWithin(ms: seq<Match>, n: nat)
    requires forall m :: m in ms ==> m.index <= n
    ensures Within(Analyzed(ms), n)
  {
    AnalyzedPositions(ms);
    forall k | 0 <= k < |Analyzed(ms)|
      ensures Analyzed(ms)[k].position <= n
    {
      assert ms[FirstAt(ms, Analyzed(ms)[k].name)] in ms;
    }
  }

  /** Sorting keeps the positions in range. */
  lemma SortedWithin(fs: seq<FuncInfo>, n: nat)
    requires Within(fs, n)
    ensures Within(SortDesc(fs, Position), n)
  {
    var sorted := SortDesc(fs, Position);
    forall k | 0 <= k < |sorted|
      ensures sorted[k].position <= n
    {
      assert sorted[k] in multiset(fs);
      var j :| 0 <= j < |fs| && fs[j] == sorted[k];
    }
  }

  /** One round of addFuncIdComments' loop extends the annotation by the
      next function. */
  lemma SpliceStep(code: string, fs: seq<FuncInfo>, i: nat)
    requires i < |fs| && SortedDesc(fs, Position) && Within(fs, |code|)
    ensures SortedDesc(fs[..i], Position) && Within(fs[..i], |code|)
    ensures var r := Annotated(code, fs[..i]);
            var pos := fs[i].position;
            Slice(r, 0, pos) + ("// " + fs[i].funcId + "\n") + SliceFrom(r, pos) == Annotated(code, fs[..i + 1])
  {
    SortedPrefix(fs, |code|, i + 1);
    TakeSnoc(fs, i);
    AnnotatedSnoc(code, fs[..i], fs[i]);
    SliceInsert(Annotated(code, fs[..i]), fs[i].position, Comment(fs[i]));
  }

  lemma InitLast<T>(s: seq<T>)
    requires s != []
    ensures s[..|s| - 1] + [s[|s| - 1]] == s
  {
  }

  lemma TakeSnoc<T>(s: seq<T>, i: nat)
    requires i < |s|
    ensures s[..i + 1] == s[..i] + [s[i]]
  {
  }

  /** `r.slice(0, pos) + c + r.slice(pos)` inserts `c` at `pos`. */
  lemma SliceInsert(r: string, pos: nat, c: string)
    requires pos <= |r|
    ensures Slice(r, 0, pos) + c + SliceFrom(r, pos) == InsertAt(r, pos, c)
  {
    assert Slice(r, 0, pos) == r[..pos];
    assert SliceFrom(r, pos) == r[pos..];
  }

  lemma SortedPrefix(fs: seq<FuncInfo>, n: nat, i: nat)
    requires i <= |fs| && SortedDesc(fs, Position) && Within(fs, n)
    ensures SortedDesc(fs[..i], Position) && Within(fs[..i], n)
  {
  }

  /** `Embeds(a, b, idx)`: the characters of `a` occur in `b`, in order, at
      the strictly increasing indices `idx`. */
  predicate Embeds(a: string, b: string, idx: seq<nat>) {
    |idx| == |a| &&
    (forall i :: 0 <= i < |a| ==> idx[i] < |b| && b[idx[i]] == a[i]) &&
    (forall i, j :: 0 <= i < j < |a| ==> idx[i] < idx[j])
  }

  predicate StrictlyDesc(fs: seq<FuncInfo>) {
    forall i, j :: 0 <= i < j < |fs| ==> fs[i].position > fs[j].position
  }

  /** Where each character of the code ends up in the annotated code. */
  ghost function Placement(code: string, fs: seq<FuncInfo>): (r: seq<nat>)
    requires SortedDesc(fs, Position) && Within(fs, |code|)
    ensures |r| == |code|
    ensures forall i :: 0 <= i < |r| ==> r[i] < |code| + CommentsLength(fs)
    decreases |fs|
  {
    if fs == [] then seq(|code|, i requires 0 <= i < |code| => i)
    else
      var p := fs[0].position;
      SortedTail(fs, |code|);
      var x := Annotated(code[..p], fs[1..]);
      Placement(code[..p], fs[1..]) + seq(|code| - p, j requires 0 <= j < |code| - p => |x| + |Comment(fs[0])| + j)
  }

  /** The original code is a subsequence of the annotated code. */
  lemma {:induction false} AnnotatedKeepsCode(code: string, fs: seq<FuncInfo>)
    requires SortedDesc(fs, Position) && Within(fs, |code|)
    ensures Embeds(code, Annotated(code, fs), Placement(code, fs))
    decreases |fs|
  {
    if fs != [] {
      var p := fs[0].position;
      SortedTail(fs, |code|);
      AnnotatedKeepsCode(code[..p], fs[1..]);
      EmbedsExtend(code, p, Annotated(code[..p], fs[1..]), Comment(fs[0]), Placement(code[..p], fs[1..]), Placement(code, fs));
    }
  }

  /** With distinct positions, each comment ends exactly where the original
      character at its position now stands. */
  lemma {:induction false} CommentsBeforeTheirPosition(code: string, fs: seq<FuncInfo>, k: nat)
    requires SortedDesc(fs, Position) && Within(fs, |code|) && StrictlyDesc(fs)
    requires k < |fs| && fs[k].position < |code|
    ensures var at := Placement(code, fs);
            var c := Comment(fs[k]);
            |c| <= at[fs[k].position] && Annotated(code, fs)[at[fs[k].position] - |c|..at[fs[k].position]] == c
    decreases |fs|
  {
    if k == 0 {
      FirstCommentPlaced(code, fs);
    } else {
      SortedTail(fs, |code|);
      StrictTail(fs, k);
      var sub, rest := code[..fs[0].position], fs[1..];
      assert |sub| == fs[0].position && rest[k - 1].position < |sub|;
      CommentsBeforeTheirPosition(sub, rest, k - 1);
      LaterCommentPlaced(code, fs, k);
    }
  }

  lemma StrictTail(fs: seq<FuncInfo>, k: nat)
    requires StrictlyDesc(fs) && 0 < k < |fs|
    ensures StrictlyDesc(fs[1..]) && fs[k] == fs[1..][k - 1] && fs[k].position < fs[0].position
  {
    var rest := fs[1..];
    forall i, j | 0 <= i < j < |rest|
      ensures rest[i].position > rest[j].position
    {
      assert rest[i] == fs[i + 1] && rest[j] == fs[j + 1];
    }
  }

  /** The comment of the highest-positioned function sits right before the
      code from that position on. */
  lemma FirstCommentPlaced(code: string, fs: seq<FuncInfo>)
    requires SortedDesc(fs, Position) && Within(fs, |code|)
    requires fs != [] && fs[0].position < |code|
    ensures var at := Placement(code, fs);
            var c := Comment(fs[0]);
            |c| <= at[fs[0].position] && Annotated(code, fs)[at[fs[0].position] - |c|..at[fs[0].position]] == c
  {
    var p := fs[0].position;
    SortedTail(fs, |code|);
    var x := Annotated(code[..p], fs[1..]);
    var c := Comment(fs[0]);
    var at := Placement(code, fs);
    assert at[p] == |x| + |c|;
    SliceOfPrefix(x + c, code[p..], |x|, |x| + |c|);
    assert (x + c)[|x|..|x| + |c|] == c;
  }

  /** A comment placed inside the annotated prefix stays where it was. */
  lemma LaterCommentPlaced(code: string, fs: seq<FuncInfo>, k: nat)
    requires SortedDesc(fs, Position) && Within(fs, |code|)
    requires 0 < k < |fs| && fs[k].position < fs[0].position
    requires SortedDesc(fs[1..], Position) && Within(fs[1..], fs[0].position)
    requires var e := Placement(code[..fs[0].position], fs[1..]);
             var ck := Comment(fs[k]);
             |ck| <= e[fs[k].position] &&
             Annotated(code[..fs[0].position], fs[1..])[e[fs[k].position] - |ck|..e[fs[k].position]] == ck
    ensures var at := Placement(code, fs);
            var c := Comment(fs[k]);
            |c| <= at[fs[k].position] && Annotated(code, fs)[at[fs[k].position] - |c|..at[fs[k].position]] == c
  {
    var p := fs[0].position;
    var x := Annotated(code[..p], fs[1..]);
    var c := Comment(fs[0]);
    var e := Placement(code[..p], fs[1..]);
    var q := fs[k].position;
    var ck := Comment(fs[k]);
    assert Placement(code, fs)[q] == e[q];
    SliceOfPrefix(x + c, code[p..], e[q] - |ck|, e[q]);
    SliceOfPrefix(x, c, e[q] - |ck|, e[q]);
  }

  lemma SliceOfPrefix(x: string, y: string, lo: nat, hi: nat)
    requires lo <= hi <= |x|
    ensures (x + y)[lo..hi] == x[lo..hi]
  {
  }

  /** The embedding of the code before `p` into `x`, followed by the code
      from `p` on placed after `x` and the comment, embeds the whole code. */
  lemma EmbedsExtend(code: string, p: nat, x: string, c: string, e: seq<nat>, idx: seq<nat>)
    requires p <= |code| && Embeds(code[..p], x, e)
    requires idx == e + seq(|code| - p, j requires 0 <= j < |code| - p => |x| + |c| + j)
    ensures Embeds(code, x + c + code[p..], idx)
  {
    var b := x + c + code[p..];
    forall i | 0 <= i < |code|
      ensures idx[i] < |b| && b[idx[i]] == code[i]
    {
      if i < p {
        assert idx[i] == e[i] && b[e[i]] == x[e[i]] && code[..p][i] == code[i];
      } else {
        assert idx[i] == |x| + |c| + (i - p);
        assert b[idx[i]] == code[p..][i - p];
      }
    }
  }
}
