/** The result dict of `read_mode_amplitudes` described without its loop: which
    amplitudes each mode paragraph takes, when the loop raises and where, and
    what the dict holds for an irrep label. */
module FindModesResults {
  import opened Wrappers
  import opened Strings
  import opened Dicts
  import opened FindModes
  import opened FindModesProps

  // ---------------------------------------------------------------------------
  // Tidying the mode paragraphs.

  /** `filter(None, l)` keeps exactly the non-empty lines. */
  lemma {:induction false} NonEmptyLinesIff(l: seq<string>)
    ensures forall x :: x in NonEmptyLines(l) <==> x in l && x != ""
    decreases |l|
  {
    if |l| > 0 {
      var init := l[..|l| - 1];
      NonEmptyLinesIff(init);
      assert l == init + [l[|l| - 1]];
    }
  }

  /** Filtering a concatenation filters each part. */
  lemma {:induction false} NonEmptyLinesAppend(a: seq<string>, b: seq<string>)
    ensures NonEmptyLines(a + b) == NonEmptyLines(a) + NonEmptyLines(b)
    decreases |b|
  {
    if |b| > 0 {
      var init := b[..|b| - 1];
      NonEmptyLinesAppend(a, init);
      assert (a + b)[..|a + b| - 1] == a + init;
      assert (a + b)[|a + b| - 1] == b[|b| - 1];
    } else {
      assert a + b == a;
    }
  }

  /** A single line is kept exactly when it is not empty. */
  lemma NonEmptyLinesOne(x: string)
    ensures NonEmptyLines([x]) == if x == "" then [] else [x]
  {
    assert [x][..0] == [];
  }

  /** Mode paragraph k holds the non-empty lines of collected paragraph k + 1, in
      order, less the closing line of the last one. */
  lemma ModeParagraphLines(ps: seq<string>, k: nat)
    requires |Collected(ps)| >= 2 && k < |Collected(ps)| - 1
    ensures var c := Collected(ps)[k + 1];
      ModeParagraphs(ps)[k] == NonEmptyLines(if k == |Collected(ps)| - 2 then c[..|c| - 1] else c)
    ensures var c := Collected(ps)[k + 1];
      var lines := if k == |Collected(ps)| - 2 then c[..|c| - 1] else c;
      forall x :: x in ModeParagraphs(ps)[k] <==> x in lines && x != ""
  {
    var c := Collected(ps)[k + 1];
    NonEmptyLinesIff(if k == |Collected(ps)| - 2 then c[..|c| - 1] else c);
  }

  // ---------------------------------------------------------------------------
  // Which amplitudes each mode takes.

  /** The number of component lines of a mode paragraph. */
  function Components(mode: seq<string>): nat {
    if |mode| == 0 then 0 else |mode| - 1
  }

  /** The position of the first amplitude of mode k: the components of the modes before it. */
  function Offset(modes: seq<seq<string>>, k: nat): nat
    requires k <= |modes|
  {
    if k == 0 then 0 else Offset(modes, k - 1) + Components(modes[k - 1])
  }

  /** Mode k has an info line, the line has at least four tokens, and there are
      amplitudes for all its components. */
  predicate ModeOk<A>(modes: seq<seq<string>>, amps: seq<A>, k: nat)
    requires k < |modes|
  {
    |modes[k]| >= 1 && ParseInfo(modes[k][0]).Some? && Offset(modes, k + 1) <= |amps|
  }

  predicate WellFormed<A>(modes: seq<seq<string>>, amps: seq<A>) {
    forall k :: 0 <= k < |modes| ==> ModeOk(modes, amps, k)
  }

  /** Where the loop raises when mode k is the first that is not ModeOk. */
  function Failure<A>(modes: seq<seq<string>>, amps: seq<A>, k: nat): Site
    requires k < |modes|
  {
    if |modes[k]| == 0 then EmptyParagraph(k)
    else if ParseInfo(modes[k][0]).None? then ShortInfoLine(k)
    else MissingAmplitude(k)
  }

  /** `irrep_label` and the entry of mode k: its info, and its component labels
      mapped to the amplitudes from Offset(modes, k) on. */
  function Entry<A>(modes: seq<seq<string>>, amps: seq<A>, k: nat): (string, ModeEntry<A>)
    requires k < |modes| && ModeOk(modes, amps, k)
  {
    var line := ParseInfo(modes[k][0]).value;
    (line.irrep, ModeEntry(line.info, PutAll([], Zip(modes[k][1..], amps[Offset(modes, k)..Offset(modes, k + 1)]))))
  }

  /** The entries of the first k modes, in order. */
  function Entries<A>(modes: seq<seq<string>>, amps: seq<A>, k: nat): (es: seq<(string, ModeEntry<A>)>)
    requires k <= |modes| && forall i :: 0 <= i < k ==> ModeOk(modes, amps, i)
    ensures |es| == k
  {
    if k == 0 then [] else Entries(modes, amps, k - 1) + [Entry(modes, amps, k - 1)]
  }

  /** The first mode from k on that is not ModeOk, or |modes| when there is none. */
  function FirstBad<A>(modes: seq<seq<string>>, amps: seq<A>, k: nat): (b: nat)
    requires k <= |modes|
    ensures k <= b <= |modes|
    ensures forall i :: k <= i < b ==> ModeOk(modes, amps, i)
    ensures b < |modes| ==> !ModeOk(modes, amps, b)
    decreases |modes| - k
  {
    if k == |modes| || !ModeOk(modes, amps, k) then k else FirstBad(modes, amps, k + 1)
  }

  /** One turn of the loop at mode k, with Offset(modes, k) amplitudes handed out:
      Entry(modes, amps, k) when mode k is ModeOk, and otherwise its Failure. */
  lemma StepAt<A>(modes: seq<seq<string>>, amps: seq<A>, k: nat)
    requires k < |modes|
    ensures ModeOk(modes, amps, k) ==>
      var e := Entry(modes, amps, k);
      ModeStep(modes[k], amps, k, Offset(modes, k)) == Made(e.0, e.1, Offset(modes, k + 1))
    ensures !ModeOk(modes, amps, k) ==>
      ModeStep(modes[k], amps, k, Offset(modes, k)) == Failed(Failure(modes, amps, k))
  {
  }

  /** The loop from mode k on is one turn followed by the loop from mode k + 1 on. */
  lemma BuildFromStep<A>(modes: seq<seq<string>>, amps: seq<A>, k: nat, last: nat,
                         results: Dict<string, ModeEntry<A>>)
    requires k < |modes|
    ensures var step := ModeStep(modes[k], amps, k, last);
      BuildFrom(modes, amps, k, last, results) ==
        if step.Failed? then IndexError(step.site)
        else BuildFrom(modes, amps, k + 1, step.next, Put(results, step.irrep, step.entry))
  {
  }

  /** A turn at a ModeOk mode k adds Entry(modes, amps, k) to the entries of the modes before it. */
  lemma BuildFromTurn<A>(modes: seq<seq<string>>, amps: seq<A>, k: nat)
    requires k < |modes| && forall i :: 0 <= i <= k ==> ModeOk(modes, amps, i)
    ensures BuildFrom(modes, amps, k, Offset(modes, k), PutAll([], Entries(modes, amps, k)))
         == BuildFrom(modes, amps, k + 1, Offset(modes, k + 1), PutAll([], Entries(modes, amps, k + 1)))
  {
    var e := Entry(modes, amps, k);
    StepAt(modes, amps, k);
    BuildFromStep(modes, amps, k, Offset(modes, k), PutAll([], Entries(modes, amps, k)));
    PutAllSnoc([], Entries(modes, amps, k), e);
  }

  /** A turn at a mode k that is not ModeOk raises its Failure. */
  lemma BuildFromFail<A>(modes: seq<seq<string>>, amps: seq<A>, k: nat)
    requires k < |modes| && !ModeOk(modes, amps, k) && forall i :: 0 <= i < k ==> ModeOk(modes, amps, i)
    ensures BuildFrom(modes, amps, k, Offset(modes, k), PutAll([], Entries(modes, amps, k)))
         == IndexError(Failure(modes, amps, k))
  {
    StepAt(modes, amps, k);
    BuildFromStep(modes, amps, k, Offset(modes, k), PutAll([], Entries(modes, amps, k)));
  }

  /** From mode k on, with the modes before it all ModeOk, the loop either runs
      to the end or raises at the first mode that is not ModeOk. */
  lemma {:induction false} BuildFromAt<A>(modes: seq<seq<string>>, amps: seq<A>, k: nat, b: nat)
    requires k <= b <= |modes|
    requires forall i :: 0 <= i < b ==> ModeOk(modes, amps, i)
    requires b < |modes| ==> !ModeOk(modes, amps, b)
    ensures BuildFrom(modes, amps, k, Offset(modes, k), PutAll([], Entries(modes, amps, k)))
         == if b == |modes| then Modes(PutAll([], Entries(modes, amps, |modes|)))
            else IndexError(Failure(modes, amps, b))
    decreases b - k
  {
    if k < b {
      BuildFromTurn(modes, amps, k);
      BuildFromAt(modes, amps, k + 1, b);
    } else if b < |modes| {
      BuildFromFail(modes, amps, k);
    }
  }

  /** The loop over the mode paragraphs, for every input: the dict of all the
      entries when every mode is ModeOk, and otherwise the `IndexError` of the
      first mode that is not. */
  lemma BuildResultsSpec<A>(modes: seq<seq<string>>, amps: seq<A>)
    ensures var b := FirstBad(modes, amps, 0);
      BuildFrom(modes, amps, 0, 0, []) ==
        if b == |modes| then Modes(PutAll([], Entries(modes, amps, |modes|)))
        else IndexError(Failure(modes, amps, b))
  {
    BuildFromAt(modes, amps, 0, FirstBad(modes, amps, 0));
  }

  /** When the counts agree, every mode has an info line and every line parses,
      no amplitude is missing: the count check guards the lookup. */
  lemma CountCheckGuards<A>(modes: seq<seq<string>>, amps: seq<A>)
    requires ComponentCount(modes) == |amps|
    requires forall k :: 0 <= k < |modes| ==> |modes[k]| >= 1 && ParseInfo(modes[k][0]).Some?
    ensures WellFormed(modes, amps)
  {
    OffsetCount(modes, |modes|);
    assert modes[..|modes|] == modes;
    forall k | 0 <= k < |modes|
      ensures ModeOk(modes, amps, k)
    {
      OffsetMonotone(modes, k + 1, |modes|);
    }
  }

  /** With no empty mode paragraph, the offset of mode k is the count of the components before it. */
  lemma {:induction false} OffsetCount(modes: seq<seq<string>>, k: nat)
    requires k <= |modes|
    requires forall i :: 0 <= i < k ==> |modes[i]| >= 1
    ensures Offset(modes, k) == ComponentCount(modes[..k])
  {
    if k > 0 {
      OffsetCount(modes, k - 1);
      assert modes[..k][..k - 1] == modes[..k - 1];
    }
  }

  lemma {:induction false} OffsetMonotone(modes: seq<seq<string>>, j: nat, k: nat)
    requires j <= k <= |modes|
    ensures Offset(modes, j) <= Offset(modes, k)
    decreases k - j
  {
    if j < k {
      OffsetMonotone(modes, j, k - 1);
    }
  }

  /** In the result dict each irrep label holds the entry of the last mode with
      that label, and the labels appear in the order of their first mode. */
  lemma ResultsByLabel<A>(modes: seq<seq<string>>, amps: seq<A>, irrep: string)
    requires WellFormed(modes, amps)
    ensures var es := Entries(modes, amps, |modes|);
      Get(PutAll([], es), irrep) == LastWith(es, irrep) &&
      Keys(PutAll([], es)) == FirstOccurrences(es)
  {
    var es := Entries(modes, amps, |modes|);
    GetPutAll([], es, irrep);
    PutAllKeys(es);
  }

  // ---------------------------------------------------------------------------
  // The whole page.

  /** What `read_mode_amplitudes` returns or raises, in terms of the page, when
      paragraph 0 sets `msg`: "No modes found!" exactly when no paragraph starts
      with the start marker; the `IndexError` on `[-1]` exactly when only the start
      marker's paragraph is collected; the count warning exactly when the counts
      differ; and otherwise the dict of all entries when every mode paragraph is
      ModeOk, or the `IndexError` of the first one that is not. When paragraph 0
      leaves `msg` unset, the debug print raises before any of these. */
  lemma ParsePage<A>(boxes: seq<TextBox<A>>, ps: seq<string>)
    ensures ParseResultPage(boxes, ps) == MessageUnbound <==> MessageUnset(ps)
    ensures ParseResultPage(boxes, ps) == NoModesFound <==>
      !MessageUnset(ps) && forall i :: 0 <= i < |ps| ==> !IsStart(ps[i])
    ensures ParseResultPage(boxes, ps) == IndexError(EmptyModeList) <==>
      !MessageUnset(ps) && |Collected(ps)| == 1
    ensures ParseResultPage(boxes, ps) == CountMismatch <==>
      !MessageUnset(ps) && |Collected(ps)| >= 2 && ComponentCount(ModeParagraphs(ps)) != |Amplitudes(boxes)|
    ensures ParseResultPage(boxes, ps).Modes? <==>
      !MessageUnset(ps) && |Collected(ps)| >= 2 && ComponentCount(ModeParagraphs(ps)) == |Amplitudes(boxes)| &&
      WellFormed(ModeParagraphs(ps), Amplitudes(boxes))
    ensures ParseResultPage(boxes, ps).Modes? ==>
      ParseResultPage(boxes, ps).results ==
        PutAll([], Entries(ModeParagraphs(ps), Amplitudes(boxes), |ModeParagraphs(ps)|))
    ensures (!MessageUnset(ps) && |Collected(ps)| >= 2 && ComponentCount(ModeParagraphs(ps)) == |Amplitudes(boxes)| &&
             FirstBad(ModeParagraphs(ps), Amplitudes(boxes), 0) < |ModeParagraphs(ps)|) ==>
      ParseResultPage(boxes, ps) ==
        IndexError(Failure(ModeParagraphs(ps), Amplitudes(boxes), FirstBad(ModeParagraphs(ps), Amplitudes(boxes), 0)))
  {
    NoModesIff(ps);
    if |Collected(ps)| >= 2 {
      BuildResultsSpec(ModeParagraphs(ps), Amplitudes(boxes));
    }
  }

  // ---------------------------------------------------------------------------
  // The info line.

  /** The irrep label is what follows the last ']' of the first token. */
  lemma ParseInfoIrrep(line: string)
    requires |Tokens(line)| >= 4
    ensures var t0 := Tokens(line)[0]; var irrep := ParseInfo(line).value.irrep;
      |irrep| <= |t0| && t0[|t0| - |irrep|..] == irrep && ']' !in irrep &&
      (|irrep| < |t0| ==> t0[|t0| - |irrep| - 1] == ']')
  {
    SplitLast(Tokens(line)[0], ']');
  }

  /** The parent is what precedes the first '[' of the line. */
  lemma ParseInfoParent(line: string)
    requires |Tokens(line)| >= 4
    ensures var parent := ParseInfo(line).value.info.parent;
      StartsWith(line, parent) && '[' !in parent && (|parent| < |line| ==> line[|parent|] == '[')
  {
    SplitHead(line, '[');
  }

  /** The fields of an info line: it parses exactly when it has at least four tokens; the
      irrep label is what follows the last ']' of the first token; the parent is
      what precedes the first '[' of the line; the OPD is the second token and the
      child is the fourth token without commas, then the third in parentheses. */
  lemma ParseInfoFields(line: string)
    ensures ParseInfo(line).Some? <==> |Tokens(line)| >= 4
    ensures ParseInfo(line).Some? ==>
      var tokens := Tokens(line); var r := ParseInfo(line).value;
      var t0 := tokens[0]; var irrep := r.irrep; var parent := r.info.parent;
      (|irrep| <= |t0| && t0[|t0| - |irrep|..] == irrep && ']' !in irrep &&
       (|irrep| < |t0| ==> t0[|t0| - |irrep| - 1] == ']')) &&
      (StartsWith(line, parent) && '[' !in parent && (|parent| < |line| ==> line[|parent|] == '[')) &&
      r.info.opd == tokens[1] &&
      r.info.child == RemoveAll(tokens[3], ',') + " (" + tokens[2] + ")" && ',' !in RemoveAll(tokens[3], ',')
  {
    if |Tokens(line)| >= 4 {
      ParseInfoIrrep(line);
      ParseInfoParent(line);
    }
  }
}
