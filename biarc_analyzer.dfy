/** associations.BiarcAnalyzer.MapperClass: reads one line of the
    syntactic-n-gram corpus, stems every token, and for each distinct head
    word the line's tokens point at writes (Lexeme, head stem) ->
    (Count, total count). */
module BiarcAnalyzer {
  import opened Wrappers
  import opened JavaText
  import opened Associations
  import opened TaggedPairs

  /** helpers.Stemmer, whose algorithm is not part of this model, together
      with toLowerCase(Locale.ROOT): both are taken as pure functions. The
      stemmer is handed the lower-cased characters and the number of UTF-16
      units of the original word, as the mapper calls it. */
  datatype Stemmer = Stemmer(lowerCase: string -> string, stem: (string, nat) -> string)

  /** What the stream map yields for one token whose first '/'-part is
      word: add, stem, toString. */
  function StemOf(st: Stemmer, word: string): string
  {
    st.stem(st.lowerCase(word), Utf16Length(word))
  }

  /** The exceptions map can throw: too few tab-separated fields
      (ArrayIndexOutOfBounds on tokens[1] or tokens[2]), a total count that
      is not a long, a token made only of '/' (its split is empty, so s[0]
      is out of bounds), a head index that is not an int, and a head index
      past the last token. */
  datatype MapError = MissingField | BadTotalCount | EmptyToken | BadHeadIndex | HeadOutOfRange

  /** What map has computed when its loop starts: each token's '/'-parts,
      each token's stem, and the parsed total count. */
  datatype Record = Record(ngrams: seq<seq<string>>, words: seq<string>, totalCount: int)

  /** The statements of map before its loop. */
  function ParseRecord(st: Stemmer, line: string): (r: Result<Record, MapError>)
    ensures r.Success? ==> |Split(line, '\t')| >= 3 && ParseLong(Split(line, '\t')[2]) == Some(r.value.totalCount)
  {
    var fields := Split(line, '\t');
    if |fields| < 3 then Failure(MissingField)
    else
      var syntacticNgrams := Split(fields[1], ' ');
      match ParseLong(fields[2])
      case None => Failure(BadTotalCount)
      case Some(totalCount) =>
        var ngrams := seq(|syntacticNgrams|, i requires 0 <= i < |syntacticNgrams| => Split(syntacticNgrams[i], '/'));
        if exists i :: 0 <= i < |ngrams| && |ngrams[i]| == 0 then Failure(EmptyToken)
        else
          var words := seq(|ngrams|, i requires 0 <= i < |ngrams| && |ngrams[i]| > 0 => StemOf(st, ngrams[i][0]));
          Success(Record(ngrams, words, totalCount))
  }

  /** What one pass of the loop does with one token. */
  datatype Action = Skip | Head(word: string) | Fail(error: MapError)

  /** A head word is always one of the record's stems, only a well-formed
      token has one, and the loop can only throw on a head index. */
  function TokenAction(words: seq<string>, ngram: seq<string>): (a: Action)
    ensures a.Head? ==> |ngram| == 4 && a.word in words
    ensures a.Fail? ==> |ngram| == 4 && a.error in {BadHeadIndex, HeadOutOfRange}
  {
    if |ngram| != 4 then Skip
    else match ParseInt(ngram[3])
      case None => Fail(BadHeadIndex)
      case Some(h) =>
        var headIndex := WrapInt(h - 1);
        if headIndex < 0 then Skip
        else if headIndex >= |words| then Fail(HeadOutOfRange)
        else Head(words[headIndex])
  }

  function Actions(rec: Record): (actions: seq<Action>)
    ensures |actions| == |rec.ngrams|
  {
    seq(|rec.ngrams|, i requires 0 <= i < |rec.ngrams| => TokenAction(rec.words, rec.ngrams[i]))
  }

  /** The head words met so far, in token order, and the exception that
      ended the loop, if any. */
  datatype RunState = RunState(heads: seq<string>, failure: Option<MapError>)

  function Step(state: RunState, action: Action): RunState
  {
    if state.failure.Some? then state
    else match action
      case Skip => state
      case Head(w) => RunState(state.heads + [w], None)
      case Fail(e) => RunState(state.heads, Some(e))
  }

  function Run(actions: seq<Action>): RunState
  {
    if |actions| == 0 then RunState([], None)
    else Step(Run(actions[..|actions| - 1]), actions[|actions| - 1])
  }

  /** No element occurs twice. */
  predicate NoDuplicates<T(==)>(s: seq<T>)
  {
    forall a, b :: 0 <= a < b < |s| ==> s[a] != s[b]
  }

  /** Each element of s once, where it first occurs: the order in which the
      per-record HashSet first sees them. */
  function Dedup(s: seq<string>): (r: seq<string>)
    ensures NoDuplicates(r)
    ensures forall x :: x in r <==> x in s
    ensures |r| <= |s|
  {
    if |s| == 0 then []
    else
      var seen := Dedup(s[..|s| - 1]);
      var x := s[|s| - 1];
      assert forall y :: y in s <==> y in s[..|s| - 1] || y == x by {
        assert s == s[..|s| - 1] + [x];
      }
      if x in seen then seen else seen + [x]
  }

  /** One pair handed to context.write. */
  datatype Emission = Emission(key: Pair, value: Pair)

  /** The pair written for a head word: (Lexeme, stem) -> (Count, the
      count as String.valueOf prints it). */
  function Emit(head: string, totalCount: int): (e: Emission)
    ensures e.key.tag == Lexeme && e.key.text == Utf8(head)
    ensures e.value.tag == Count
  {
    Emission(Pair(Lexeme, Utf8(head)), Pair(Count, Utf8(LongToString(totalCount))))
  }

  function EmitAll(heads: seq<string>, totalCount: int): (r: seq<Emission>)
    ensures |r| == |heads|
  {
    seq(|heads|, j requires 0 <= j < |heads| => Emit(heads[j], totalCount))
  }

  /** The pairs map has written, and the exception it ended with, if any.
      An exception thrown inside the loop comes after the writes of the
      earlier tokens. */
  datatype MapResult = MapResult(written: seq<Emission>, failure: Option<MapError>)

  /** The head words written for a record, in order. */
  function EmittedHeads(rec: Record): seq<string>
  {
    Dedup(Run(Actions(rec)).heads)
  }

  /** At most one write per token, and only a head index can make the
      loop throw. */
  function Extract(rec: Record): (r: MapResult)
    ensures |r.written| <= |rec.ngrams|
    ensures r.failure.Some? ==> r.failure.value in {BadHeadIndex, HeadOutOfRange}
  {
    RunBounds(Actions(rec));
    MapResult(EmitAll(EmittedHeads(rec), rec.totalCount), Run(Actions(rec)).failure)
  }

  /** What map does with one line. The exceptions raised before the loop
      come before any write. */
  function MapLine(st: Stemmer, line: string): (r: MapResult)
    ensures r.failure in {Some(MissingField), Some(BadTotalCount), Some(EmptyToken)} ==> r.written == []
    ensures r.written != [] ==> ParseRecord(st, line).Success?
  {
    match ParseRecord(st, line)
    case Failure(e) => MapResult([], Some(e))
    case Success(rec) => Extract(rec)
  }

  // ---------------------------------------------------------------------
  // The mapper object

  class MapperClass {
    var stemmer: Option<Stemmer>

    constructor ()
      ensures stemmer == None
    {
      stemmer := None;
    }

    /** setup: the stemmer exists from here on. */
    method Setup(st: Stemmer)
      modifies this
      ensures stemmer == Some(st)
    {
      stemmer := Some(st);
    }

    /** map: written is what reached context.write, in order. */
    method Map(line: string) returns (written: seq<Emission>, failure: Option<MapError>)
      requires stemmer.Some?
      ensures MapResult(written, failure) == MapLine(stemmer.value, line)
    {
      var parsed := ParseRecord(stemmer.value, line);
      if parsed.Failure? {
        written, failure := [], Some(parsed.error);
        return;
      }
      written, failure := WriteHeads(parsed.value);
    }
  }

  /** The loop of map: each token in turn; a token that does not have four
      parts or whose head index is not positive is passed over, and a head
      word not yet in the per-record set is added to it and written. */
  method WriteHeads(rec: Record) returns (written: seq<Emission>, failure: Option<MapError>)
    ensures MapResult(written, failure) == Extract(rec)
  {
    written, failure := [], None;
    ghost var heads: seq<string> := [];
    var lexemes: set<string> := {};
    for i := 0 to |rec.ngrams|
      invariant Run(Actions(rec)[..i]) == RunState(heads, None)
      invariant written == EmitAll(Dedup(heads), rec.totalCount)
      invariant forall w :: w in lexemes <==> w in heads
    {
      var ngram := rec.ngrams[i];
      TokenActionCases(rec.words, ngram);
      if |ngram| != 4 {
        LoopStep(rec, i, heads, heads);
        continue;
      }
      var parsedHead := ParseInt(ngram[3]);
      if parsedHead.None? {
        failure := Some(BadHeadIndex);
        LoopFails(rec, i, heads);
        return;
      }
      var headIndex := WrapInt(parsedHead.value - 1);
      if headIndex < 0 {
        LoopStep(rec, i, heads, heads);
        continue;
      }
      if headIndex >= |rec.words| {
        failure := Some(HeadOutOfRange);
        LoopFails(rec, i, heads);
        return;
      }
      var headWord := rec.words[headIndex];
      LoopStep(rec, i, heads, heads + [headWord]);
      WriteStep(heads, headWord, rec.totalCount);
      if headWord !in lexemes {
        lexemes := lexemes + {headWord};
        written := written + [Emit(headWord, rec.totalCount)];
      }
      heads := heads + [headWord];
    }
    assert Actions(rec)[..|rec.ngrams|] == Actions(rec);
  }

  /** TokenAction case by case, for the loop that tests the same
      conditions one after the other. */
  lemma TokenActionCases(words: seq<string>, ngram: seq<string>)
    ensures |ngram| != 4 ==> TokenAction(words, ngram) == Skip
    ensures |ngram| == 4 && ParseInt(ngram[3]).None? ==> TokenAction(words, ngram) == Fail(BadHeadIndex)
    ensures |ngram| == 4 && ParseInt(ngram[3]).Some? ==>
      var k := WrapInt(ParseInt(ngram[3]).value - 1);
      TokenAction(words, ngram) == if k < 0 then Skip else if k >= |words| then Fail(HeadOutOfRange) else Head(words[k])
  {
  }

  /** One pass of the loop over a token that does not fail: the head
      words met grow by the token's head word, if it has one. */
  lemma LoopStep(rec: Record, i: nat, heads: seq<string>, heads': seq<string>)
    requires i < |rec.ngrams| && Run(Actions(rec)[..i]) == RunState(heads, None)
    requires Step(RunState(heads, None), TokenAction(rec.words, rec.ngrams[i])) == RunState(heads', None)
    ensures Run(Actions(rec)[..i + 1]) == RunState(heads', None)
  {
    RunStep(Actions(rec), i);
  }

  /** A pass of the loop over a failing token ends the whole loop. */
  lemma LoopFails(rec: Record, i: nat, heads: seq<string>)
    requires i < |rec.ngrams| && Run(Actions(rec)[..i]) == RunState(heads, None)
    requires TokenAction(rec.words, rec.ngrams[i]).Fail?
    ensures Extract(rec) == MapResult(EmitAll(Dedup(heads), rec.totalCount), Some(TokenAction(rec.words, rec.ngrams[i]).error))
  {
    RunStep(Actions(rec), i);
    RunStopsAtFailure(Actions(rec), i + 1);
  }

  /** Meeting head word w writes it exactly when it was not met before. */
  lemma WriteStep(heads: seq<string>, w: string, totalCount: int)
    ensures EmitAll(Dedup(heads + [w]), totalCount) ==
      if w in heads then EmitAll(Dedup(heads), totalCount)
      else EmitAll(Dedup(heads), totalCount) + [Emit(w, totalCount)]
  {
    DedupSnoc(heads, w);
    if w !in heads {
      EmitAllSnoc(Dedup(heads), w, totalCount);
    }
  }

  lemma EmitAllSnoc(heads: seq<string>, w: string, totalCount: int)
    ensures EmitAll(heads + [w], totalCount) == EmitAll(heads, totalCount) + [Emit(w, totalCount)]
  {
  }

  // ---------------------------------------------------------------------
  // Lemmas about the loop's fold

  lemma RunStep(actions: seq<Action>, i: nat)
    requires i < |actions|
    ensures Run(actions[..i + 1]) == Step(Run(actions[..i]), actions[i])
  {
    assert actions[..i + 1][..i] == actions[..i];
  }

  /** Once a token has failed, later tokens change nothing. */
  lemma {:induction false} RunStopsAtFailure(actions: seq<Action>, i: nat)
    requires i <= |actions| && Run(actions[..i]).failure.Some?
    ensures Run(actions) == Run(actions[..i])
    decreases |actions| - i
  {
    if i < |actions| {
      RunStep(actions, i);
      RunStopsAtFailure(actions, i + 1);
    } else {
      assert actions[..i] == actions;
    }
  }

  lemma DedupSnoc(s: seq<string>, x: string)
    ensures Dedup(s + [x]) == if x in s then Dedup(s) else Dedup(s) + [x]
  {
    assert (s + [x])[..|s|] == s;
  }

  // ---------------------------------------------------------------------
  // What map promises

  /** map fails before writing anything when the line has fewer than three
      tab-separated fields, or when the third is not a long. */
  lemma FieldFailures(st: Stemmer, line: string)
    ensures |Split(line, '\t')| < 3 ==> MapLine(st, line) == MapResult([], Some(MissingField))
    ensures |Split(line, '\t')| >= 3 && ParseLong(Split(line, '\t')[2]).None? ==>
      MapLine(st, line) == MapResult([], Some(BadTotalCount))
  {
  }

  /** map also fails before writing anything, and only then with
      EmptyToken, when some space-separated token is made only of '/'
      characters. */
  lemma EmptyTokenFails(st: Stemmer, line: string)
    requires |Split(line, '\t')| >= 3 && ParseLong(Split(line, '\t')[2]).Some?
    ensures var tokens := Split(Split(line, '\t')[1], ' ');
      MapLine(st, line) == MapResult([], Some(EmptyToken)) <==>
      exists i :: 0 <= i < |tokens| && |tokens[i]| > 0 && OnlyDelimiters(tokens[i], '/')
  {
    var tokens := Split(Split(line, '\t')[1], ' ');
    forall i | 0 <= i < |tokens| {
      SplitEmptyIffOnlyDelimiters(tokens[i], '/');
    }
    var parsed := ParseRecord(st, line);
    if parsed.Success? {
      EveryTokenIsStemmed(st, line);
    }
  }

  /** A fold meets at most one head word per action, and ends only with
      an exception one of its actions throws. */
  lemma {:induction false} RunBounds(actions: seq<Action>)
    ensures |Run(actions).heads| <= |actions|
    ensures Run(actions).failure.Some? ==> Fail(Run(actions).failure.value) in actions
  {
    if |actions| > 0 {
      var p := actions[..|actions| - 1];
      RunBounds(p);
      assert forall a :: a in p ==> a in actions;
    }
  }

  /** Every token is stemmed, the malformed ones too, so head indices count
      every token: words[i] is the stem of the lower-cased first '/'-part of
      token i. */
  lemma EveryTokenIsStemmed(st: Stemmer, line: string)
    requires ParseRecord(st, line).Success?
    ensures var rec := ParseRecord(st, line).value;
      var tokens := Split(Split(line, '\t')[1], ' ');
      |rec.ngrams| == |rec.words| == |tokens| &&
      forall i :: 0 <= i < |tokens| ==>
        rec.ngrams[i] == Split(tokens[i], '/') && |rec.ngrams[i]| >= 1 &&
        rec.words[i] == StemOf(st, rec.ngrams[i][0])
  {
  }

  /** Token i is well formed (four '/'-parts) and its head index h, counted
      from 1, names one of the record's tokens, whose stem is w. */
  ghost predicate RefersToHead(rec: Record, i: int, w: string)
  {
    && 0 <= i < |rec.ngrams|
    && |rec.ngrams[i]| == 4
    && ParseInt(rec.ngrams[i][3]).Some?
    && 1 <= ParseInt(rec.ngrams[i][3]).value <= |rec.words|
    && rec.words[ParseInt(rec.ngrams[i][3]).value - 1] == w
  }

  /** The skip and failure rules for one token. A token without exactly
      four parts, or with a head index h in INT_MIN < h <= 0, is skipped.
      A head index that is not an int, or one past the last token, fails;
      so does INT_MIN, because INT_MIN - 1 wraps to INT_MAX, an index no
      Java array has. Every other token yields its head's stem. */
  lemma TokenRules(rec: Record, i: int)
    requires 0 <= i < |rec.ngrams| && |rec.words| <= INT_MAX
    ensures var a := TokenAction(rec.words, rec.ngrams[i]);
      && (|rec.ngrams[i]| != 4 ==> a == Skip)
      && (|rec.ngrams[i]| == 4 && ParseInt(rec.ngrams[i][3]).None? ==> a == Fail(BadHeadIndex))
      && (|rec.ngrams[i]| == 4 && ParseInt(rec.ngrams[i][3]).Some? ==>
           var h := ParseInt(rec.ngrams[i][3]).value;
           && (INT_MIN < h <= 0 ==> a == Skip)
           && (h == INT_MIN || h > |rec.words| ==> a == Fail(HeadOutOfRange))
           && (1 <= h <= |rec.words| ==> a == Head(rec.words[h - 1])))
    ensures forall w :: TokenAction(rec.words, rec.ngrams[i]) == Head(w) <==> RefersToHead(rec, i, w)
  {
    if |rec.ngrams[i]| == 4 && ParseInt(rec.ngrams[i][3]).Some? {
      var h := ParseInt(rec.ngrams[i][3]).value;
      if h == INT_MIN {
        assert WrapInt(h - 1) == INT_MAX;
      }
    }
  }

  /** After the first n tokens (none of them failing), the head words met
      are exactly the stems the well-formed tokens among them point at. */
  lemma {:induction false} HeadsOfPrefix(rec: Record, n: nat)
    requires n <= |rec.ngrams| && |rec.words| <= INT_MAX
    requires Run(Actions(rec)[..n]).failure == None
    ensures forall w :: w in Run(Actions(rec)[..n]).heads <==> exists i :: 0 <= i < n && RefersToHead(rec, i, w)
  {
    var actions := Actions(rec);
    if n > 0 {
      HeadsStep(actions, n);
      HeadsOfPrefix(rec, n - 1);
      TokenRules(rec, n - 1);
      assert actions[n - 1] == TokenAction(rec.words, rec.ngrams[n - 1]);
      forall w
        ensures w in Run(actions[..n]).heads <==> ReferredBefore(rec, n, w)
      {
        ReferredBeforeStep(rec, n, w);
      }
    }
  }

  /** The last of n actions adds its head word, if any, to those met. */
  lemma HeadsStep(actions: seq<Action>, n: nat)
    requires 0 < n <= |actions| && Run(actions[..n]).failure == None
    ensures Run(actions[..n - 1]).failure == None
    ensures forall w :: w in Run(actions[..n]).heads <==> w in Run(actions[..n - 1]).heads || actions[n - 1] == Head(w)
  {
    RunStep(actions, n - 1);
  }

  lemma ReferredBeforeStep(rec: Record, n: nat, w: string)
    requires n > 0
    ensures ReferredBefore(rec, n, w) <==> ReferredBefore(rec, n - 1, w) || RefersToHead(rec, n - 1, w)
  {
    if ReferredBefore(rec, n, w) && !RefersToHead(rec, n - 1, w) {
      var i :| 0 <= i < n && RefersToHead(rec, i, w);
      assert i < n - 1;
    }
  }

  /** The set of keys written for a line that raises nothing is exactly the
      set of (Lexeme, stem) for the stems its well-formed tokens point at,
      each once; it is the stemmed head word, never the surface form. */
  lemma EmittedKeysAreHeadStems(rec: Record)
    requires |rec.words| <= INT_MAX
    requires Extract(rec).failure == None
    ensures forall e :: e in Extract(rec).written ==>
      e.key.tag == Lexeme && exists i, w :: RefersToHead(rec, i, w) && e.key.text == Utf8(w)
    ensures forall i, w :: RefersToHead(rec, i, w) ==> Emit(w, rec.totalCount) in Extract(rec).written
  {
    var actions := Actions(rec);
    assert actions[..|actions|] == actions;
    HeadsOfPrefix(rec, |actions|);
    var heads := EmittedHeads(rec);
    var written := Extract(rec).written;
    forall e | e in written
      ensures e.key.tag == Lexeme && exists i, w :: RefersToHead(rec, i, w) && e.key.text == Utf8(w)
    {
      var j :| 0 <= j < |written| && written[j] == e;
      assert heads[j] in Run(actions).heads;
    }
    forall i, w | RefersToHead(rec, i, w)
      ensures Emit(w, rec.totalCount) in written
    {
      assert w in heads;
      var j :| 0 <= j < |heads| && heads[j] == w;
      assert written[j] == Emit(w, rec.totalCount);
    }
  }

  /** Within one line no key is written twice; every key is tagged Lexeme,
      every value is (Count, the canonical decimal form of the parsed total
      count), and no Feature pair is written. */
  lemma WrittenPairsAreDistinctLexemeCounts(rec: Record)
    ensures NoDuplicates(Extract(rec).written)
    ensures forall a, b :: 0 <= a < b < |Extract(rec).written| ==>
      Extract(rec).written[a].key != Extract(rec).written[b].key
    ensures forall e :: e in Extract(rec).written ==>
      e.key.tag == Lexeme && e.value == Pair(Count, Utf8(LongToString(rec.totalCount)))
  {
    var heads := EmittedHeads(rec);
    var written := Extract(rec).written;
    forall a, b | 0 <= a < b < |written|
      ensures written[a].key != written[b].key
    {
      if written[a].key == written[b].key {
        Utf8Injective(heads[a], heads[b]);
      }
    }
  }

  /** When a token fails, what has been written is exactly what the line
      cut just before that token writes: the earlier tokens' output, whole,
      and nothing after. The failing token is the first one that fails. */
  lemma FailureKeepsEarlierWrites(rec: Record)
    requires Extract(rec).failure.Some?
    ensures exists k :: (
      && 0 <= k < |rec.ngrams|
      && TokenAction(rec.words, rec.ngrams[k]) == Fail(Extract(rec).failure.value)
      && (forall j :: 0 <= j < k ==> !TokenAction(rec.words, rec.ngrams[j]).Fail?)
      && Extract(Record(rec.ngrams[..k], rec.words, rec.totalCount)) == MapResult(Extract(rec).written, None))
  {
    var actions := Actions(rec);
    var k := FirstFailure(actions);
    RunUpToFirstFailure(actions, k);
    assert actions[..|actions|] == actions;
    assert k < |actions|;
    RunStep(actions, k);
    RunStopsAtFailure(actions, k + 1);
    var before := Run(actions[..k]);
    var e := actions[k].error;
    assert Run(actions) == RunState(before.heads, Some(e));
    var cut := Record(rec.ngrams[..k], rec.words, rec.totalCount);
    assert Actions(cut) == actions[..k];
    assert Extract(cut) == MapResult(EmitAll(Dedup(before.heads), rec.totalCount), None);
    assert Extract(rec) == MapResult(EmitAll(Dedup(before.heads), rec.totalCount), Some(e));
    assert TokenAction(rec.words, rec.ngrams[k]) == actions[k];
    assert forall j :: 0 <= j < k ==> TokenAction(rec.words, rec.ngrams[j]) == actions[j];
  }

  /** The index of the first failing action, or the length when none fails. */
  function FirstFailure(actions: seq<Action>): (k: nat)
    ensures k <= |actions|
    ensures forall j :: 0 <= j < k ==> !actions[j].Fail?
    ensures k < |actions| ==> actions[k].Fail?
  {
    if |actions| == 0 then 0
    else if actions[0].Fail? then 0
    else 1 + FirstFailure(actions[1..])
  }

  lemma {:induction false} RunUpToFirstFailure(actions: seq<Action>, k: nat)
    requires k <= |actions| && forall j :: 0 <= j < k ==> !actions[j].Fail?
    ensures Run(actions[..k]).failure == None
  {
    if k > 0 {
      RunStep(actions, k - 1);
      RunUpToFirstFailure(actions, k - 1);
    }
  }

  /** A line raises an exception inside the loop exactly when one of its
      tokens fails. */
  lemma FailsIffSomeTokenFails(rec: Record)
    ensures Extract(rec).failure.Some? <==> exists k :: 0 <= k < |rec.ngrams| && TokenAction(rec.words, rec.ngrams[k]).Fail?
  {
    var actions := Actions(rec);
    assert forall j :: 0 <= j < |actions| ==> actions[j] == TokenAction(rec.words, rec.ngrams[j]);
    var k := FirstFailure(actions);
    RunUpToFirstFailure(actions, k);
    if k < |actions| {
      RunStep(actions, k);
      RunStopsAtFailure(actions, k + 1);
    } else {
      assert actions[..k] == actions;
    }
  }

  // ---------------------------------------------------------------------
  // Order of the writes

  /** Some token among the first n points at a head whose stem is w. */
  ghost predicate ReferredBefore(rec: Record, n: int, w: string)
  {
    exists i :: 0 <= i < n && RefersToHead(rec, i, w)
  }

  /** The first m elements of s hold x but not y. */
  ghost predicate SeparatedBy(s: seq<string>, m: int, x: string, y: string)
  {
    0 <= m <= |s| && x in s[..m] && y !in s[..m]
  }

  /** Dedup keeps first occurrences in order: for an earlier element of the
      result there is a prefix of the input that already holds it but does
      not yet hold the later one. */
  lemma {:induction false} DedupKeepsFirstOccurrenceOrder(s: seq<string>, a: int, b: int)
    requires 0 <= a < b < |Dedup(s)|
    ensures exists m :: SeparatedBy(s, m, Dedup(s)[a], Dedup(s)[b])
  {
    var p := s[..|s| - 1];
    var x := s[|s| - 1];
    assert s == p + [x];
    DedupSnoc(p, x);
    if b < |Dedup(p)| {
      DedupKeepsFirstOccurrenceOrder(p, a, b);
      var m :| SeparatedBy(p, m, Dedup(p)[a], Dedup(p)[b]);
      assert s[..m] == p[..m];
      assert SeparatedBy(s, m, Dedup(s)[a], Dedup(s)[b]);
    } else {
      assert Dedup(s) == Dedup(p) + [x] && x !in p;
      assert Dedup(s)[a] == Dedup(p)[a] && Dedup(s)[a] in Dedup(p);
      assert s[..|p|] == p;
      assert SeparatedBy(s, |p|, Dedup(s)[a], Dedup(s)[b]);
    }
  }

  /** Every prefix of the head words met is what some prefix of the tokens
      meets. */
  lemma {:induction false} HeadsPrefixes(actions: seq<Action>, m: nat)
    requires m <= |Run(actions).heads|
    ensures exists n :: 0 <= n <= |actions| && Run(actions[..n]).heads == Run(actions).heads[..m]
  {
    if m == |Run(actions).heads| {
      assert actions[..|actions|] == actions;
    } else {
      var p := actions[..|actions| - 1];
      RunStep(actions, |actions| - 1);
      assert actions[..|actions| - 1] == p;
      assert m <= |Run(p).heads|;
      HeadsPrefixes(p, m);
      var n :| 0 <= n <= |p| && Run(p[..n]).heads == Run(p).heads[..m];
      assert actions[..n] == p[..n];
    }
  }

  /** A run that ends without failure had none in any prefix. */
  lemma NoFailureInPrefix(actions: seq<Action>, n: nat)
    requires n <= |actions| && Run(actions).failure == None
    ensures Run(actions[..n]).failure == None
  {
    if Run(actions[..n]).failure.Some? {
      RunStopsAtFailure(actions, n);
    }
  }

  /** The writes of a line follow its tokens: for any two written head
      words, some prefix of the tokens already points at the earlier one
      and none of its tokens points at the later one. */
  lemma EmissionsInTokenOrder(rec: Record, a: int, b: int)
    requires |rec.words| <= INT_MAX
    requires Extract(rec).failure == None
    requires 0 <= a < b < |EmittedHeads(rec)|
    ensures exists n ::
              && 0 <= n <= |rec.ngrams|
              && ReferredBefore(rec, n, EmittedHeads(rec)[a])
              && !ReferredBefore(rec, n, EmittedHeads(rec)[b])
  {
    var actions := Actions(rec);
    var h := Run(actions).heads;
    var d := EmittedHeads(rec);
    assert d == Dedup(h);
    DedupKeepsFirstOccurrenceOrder(h, a, b);
    var m :| SeparatedBy(h, m, d[a], d[b]);
    HeadsPrefixes(actions, m);
    var n :| 0 <= n <= |actions| && Run(actions[..n]).heads == h[..m];
    NoFailureInPrefix(actions, n);
    HeadsOfPrefix(rec, n);
    assert d[a] in Run(actions[..n]).heads && d[b] !in Run(actions[..n]).heads;
    assert ReferredBefore(rec, n, d[a]) && !ReferredBefore(rec, n, d[b]);
  }
}
