/** The result-page parser `read_mode_amplitudes` and the basis-matrix form fill
    `transform_basis` of find_modes.py, with the browser replaced by the values it
    would return: the text boxes of class `span1` as (name, value) pairs and the
    texts of the page's `<p>` elements. An amplitude is a value of the type
    parameter A, whatever `float` makes of the box's text. */
module FindModes {
  import opened Wrappers
  import opened Strings
  import opened Dicts

  /** A `span1` text box: its `name` attribute and the amplitude in its `value`. */
  datatype TextBox<A> = TextBox(name: string, value: A)

  /** The `'info:'` part of an entry: the parent space group, the child space
      group with its number in parentheses, and the order-parameter direction. */
  datatype Info = Info(parent: string, child: string, opd: string)

  /** What an info line yields: the irrep label that keys the entry, and its info. */
  datatype InfoLine = InfoLine(irrep: string, info: Info)

  /** A value of the result dict: exactly the two keys `'info:'` and `'components:'`. */
  datatype ModeEntry<A> = ModeEntry(info: Info, components: Dict<string, A>)

  /** Where an `IndexError` is raised: `[-1]` on the emptied paragraph list, `mode[0]`
      of a mode paragraph without lines, a token of an info line with fewer than four, or
      an amplitude past the end of the list. The index is the mode paragraph's. */
  datatype Site = EmptyModeList | EmptyParagraph(mode: nat) | ShortInfoLine(mode: nat) | MissingAmplitude(mode: nat)

  /** The result dict, `None` after one of the two warnings, a raised `IndexError`,
      or the `UnboundLocalError` of the debug print when paragraph 0 leaves `msg` unset. */
  datatype Outcome<A> =
    | Modes(results: Dict<string, ModeEntry<A>>)
    | NoModesFound
    | CountMismatch
    | IndexError(site: Site)
    | MessageUnbound

  const START_MARKER := "Enter mode and strain amplitudes:"
  const END_MARKER := "Parameters:"
  const SPACE_GROUP := "Space Group:"
  const SUBGROUP := "Subgroup:"

  // ---------------------------------------------------------------------------
  // Reading the text boxes.

  /** A box holds an amplitude when its name mentions "mode" or "strain" and is
      not one of the two generic names. */
  predicate IsAmplitudeName(name: string) {
    (Contains(name, "mode") || Contains(name, "strain"))
    && name != "modeamplitude" && name != "strainamplitude"
  }

  /** `DEBUG` is set: every paragraph is reported with the `msg` of the marker chain. */
  const DEBUG := true

  /** The values of the amplitude boxes, in page order. */
  function Amplitudes<A>(boxes: seq<TextBox<A>>): seq<A>
  {
    if |boxes| == 0 then []
    else
      var last := boxes[|boxes| - 1];
      Amplitudes(boxes[..|boxes| - 1]) + (if IsAmplitudeName(last.name) then [last.value] else [])
  }

  /** The positions of the amplitude boxes, in page order. */
  function KeptIndices<A>(boxes: seq<TextBox<A>>): seq<nat>
  {
    if |boxes| == 0 then []
    else
      var n := |boxes| - 1;
      KeptIndices(boxes[..n]) + (if IsAmplitudeName(boxes[n].name) then [n] else [])
  }

  // ---------------------------------------------------------------------------
  // Finding the mode paragraphs.

  predicate IsStart(p: string) { StartsWith(p, START_MARKER) }
  predicate IsEnd(p: string) { StartsWith(p, END_MARKER) }

  /** One step of the `form_start` flag: the summary paragraphs leave it alone,
      the start marker sets it and "Parameters:" clears it. */
  function NextFlag(p: string, formStart: bool): bool {
    if StartsWith(p, SPACE_GROUP) || StartsWith(p, SUBGROUP) then formStart
    else if IsStart(p) then true
    else if IsEnd(p) then false
    else formStart
  }

  /** The flag after the paragraphs ps, starting from false. */
  function FlagAfter(ps: seq<string>): bool {
    if |ps| == 0 then false else NextFlag(ps[|ps| - 1], FlagAfter(ps[..|ps| - 1]))
  }

  /** `p.split("\n")` */
  function Lines(p: string): seq<string> {
    Split(p, '\n')
  }

  /** The paragraph starts with one of the four markers, so the chain sets `msg`. */
  predicate HasMarker(p: string) {
    StartsWith(p, SPACE_GROUP) || StartsWith(p, SUBGROUP) || IsStart(p) || IsEnd(p)
  }

  /** The debug print of paragraph 0 reads `msg` before any marker has set it;
      later paragraphs without a marker reuse the `msg` of an earlier one. */
  predicate MessageUnset(ps: seq<string>) {
    DEBUG && |ps| > 0 && !HasMarker(ps[0])
  }

  /** The paragraphs collected while the flag is set, each as its lines. */
  function Collected(ps: seq<string>): (c: seq<seq<string>>)
    ensures forall i :: 0 <= i < |c| ==> |c[i]| >= 1
  {
    if |ps| == 0 then []
    else Collected(ps[..|ps| - 1]) + (if FlagAfter(ps) then [Lines(ps[|ps| - 1])] else [])
  }

  /** The paragraph positions at which the flag is set after the paragraph. */
  function RegionIndices(ps: seq<string>): seq<nat>
  {
    if |ps| == 0 then []
    else
      var n := |ps| - 1;
      RegionIndices(ps[..n]) + (if FlagAfter(ps) then [n] else [])
  }

  // ---------------------------------------------------------------------------
  // Tidying the mode paragraphs and counting.

  /** `list(filter(None, l))`: the lines that are not empty, in order. */
  function NonEmptyLines(l: seq<string>): seq<string>
  {
    if |l| == 0 then []
    else NonEmptyLines(l[..|l| - 1]) + (if l[|l| - 1] == "" then [] else [l[|l| - 1]])
  }

  /** `pop(-1)` on the last paragraph, then the empty lines out of every paragraph. */
  function Cleanup(modes: seq<seq<string>>): (c: seq<seq<string>>)
    requires |modes| > 0 && |modes[|modes| - 1]| > 0
    ensures |c| == |modes|
  {
    var n := |modes|;
    var trimmed := modes[n - 1 := modes[n - 1][..|modes[n - 1]| - 1]];
    seq(n, k requires 0 <= k < n => NonEmptyLines(trimmed[k]))
  }

  /** The number of lines in all the paragraphs. */
  function LineCount(ms: seq<seq<string>>): nat
  {
    if |ms| == 0 then 0 else LineCount(ms[..|ms| - 1]) + |ms[|ms| - 1]|
  }

  /** `num_components`: all lines less one info line per paragraph. */
  function ComponentCount(ms: seq<seq<string>>): int {
    LineCount(ms) - |ms|
  }

  // ---------------------------------------------------------------------------
  // Reading a mode paragraph.

  /** The fields of an info line, or None when it has fewer than four tokens. */
  function ParseInfo(line: string): Option<InfoLine>
  {
    var tokens := Tokens(line);
    if |tokens| < 4 then None
    else
      var pieces := Split(tokens[0], ']');
      var parent := Split(line, '[')[0];
      var child := RemoveAll(tokens[3], ',') + " (" + tokens[2] + ")";
      Some(InfoLine(pieces[|pieces| - 1], Info(parent, child, tokens[1])))
  }

  /** Component labels paired with their amplitudes, position by position. */
  function Zip<A>(labels: seq<string>, amps: seq<A>): (z: seq<(string, A)>)
    requires |labels| == |amps|
    ensures |z| == |labels|
  {
    seq(|labels|, i requires 0 <= i < |labels| => (labels[i], amps[i]))
  }

  /** Zipping one more position appends one pair. */
  lemma ZipSnoc<A>(labels: seq<string>, amps: seq<A>, c: nat)
    requires c < |labels| && c < |amps|
    ensures Zip(labels[..c + 1], amps[..c + 1]) == Zip(labels[..c], amps[..c]) + [(labels[c], amps[c])]
  {
  }

  /** What one turn of the loop over the mode paragraphs makes of paragraph
      `mode`, with `last` amplitudes handed out before it: the failure, or the
      irrep label, the entry and the new `last_component`. */
  datatype Step<A> = Failed(site: Site) | Made(irrep: string, entry: ModeEntry<A>, next: nat)

  function ModeStep<A>(mode: seq<string>, amps: seq<A>, k: nat, last: nat): Step<A>
  {
    if |mode| == 0 then Failed(EmptyParagraph(k))
    else
      var comps := mode[1..];
      var next := last + |comps|;
      match ParseInfo(mode[0])
      case None => Failed(ShortInfoLine(k))
      case Some(line) =>
        if next > |amps| then Failed(MissingAmplitude(k))
        else Made(line.irrep, ModeEntry(line.info, PutAll([], Zip(comps, amps[last..next]))), next)
  }

  /** The loop over the mode paragraphs from paragraph k on, `last` amplitudes
      handed out so far and `results` built so far. */
  function BuildFrom<A>(modes: seq<seq<string>>, amps: seq<A>, k: nat, last: nat,
                        results: Dict<string, ModeEntry<A>>): Outcome<A>
    requires k <= |modes|
    decreases |modes| - k
  {
    if k == |modes| then Modes(results)
    else
      match ModeStep(modes[k], amps, k, last)
      case Failed(site) => IndexError(site)
      case Made(irrep, entry, next) => BuildFrom(modes, amps, k + 1, next, Put(results, irrep, entry))
  }

  /** The mode paragraphs: the collected ones less the start marker's. */
  function ModeParagraphs(paragraphs: seq<string>): (modes: seq<seq<string>>)
    requires |Collected(paragraphs)| >= 2
    ensures |modes| == |Collected(paragraphs)| - 1
  {
    Cleanup(Collected(paragraphs)[1..])
  }

  /** What `read_mode_amplitudes` returns or raises for a page. */
  function ParseResultPage<A>(boxes: seq<TextBox<A>>, paragraphs: seq<string>): Outcome<A>
  {
    var collected := Collected(paragraphs);
    if MessageUnset(paragraphs) then MessageUnbound
    else if |collected| == 0 then NoModesFound
    else if |collected| == 1 then IndexError(EmptyModeList)
    else
      var modes := ModeParagraphs(paragraphs);
      if ComponentCount(modes) != |Amplitudes(boxes)| then CountMismatch
      else BuildFrom(modes, Amplitudes(boxes), 0, 0, [])
  }

  /** The loop over the text boxes (find_modes.py, lines 110-114). */
  method ReadAmplitudeBoxes<A>(boxes: seq<TextBox<A>>) returns (modeAmplitudes: seq<A>)
    ensures modeAmplitudes == Amplitudes(boxes)
  {
    modeAmplitudes := [];
    var ap := 0;
    while ap < |boxes|
      invariant 0 <= ap <= |boxes|
      invariant modeAmplitudes == Amplitudes(boxes[..ap])
    {
      assert boxes[..ap + 1][..ap] == boxes[..ap];
      if IsAmplitudeName(boxes[ap].name) {
        modeAmplitudes := modeAmplitudes + [boxes[ap].value];
      }
      ap := ap + 1;
    }
    assert boxes[..|boxes|] == boxes;
  }

  /** The loop over the paragraphs with the `form_start` flag. `unbound` is the
      `UnboundLocalError` of the debug print, raised before anything is collected. */
  method CollectModeParagraphs(paragraphs: seq<string>) returns (unbound: bool, modeInfoParagraphs: seq<seq<string>>)
    ensures unbound <==> MessageUnset(paragraphs)
    ensures !unbound ==> modeInfoParagraphs == Collected(paragraphs)
  {
    modeInfoParagraphs := [];
    var formStart := false;
    var msgSet := false;
    var i := 0;
    while i < |paragraphs|
      invariant 0 <= i <= |paragraphs|
      invariant msgSet <==> i > 0
      invariant i > 0 ==> !MessageUnset(paragraphs)
      invariant formStart == FlagAfter(paragraphs[..i])
      invariant modeInfoParagraphs == Collected(paragraphs[..i])
    {
      assert paragraphs[..i + 1][..i] == paragraphs[..i];
      var textblock := paragraphs[i];
      if StartsWith(textblock, SPACE_GROUP) {
        // the summary of the input structures: read, not used
        msgSet := true;
      } else if StartsWith(textblock, SUBGROUP) {
        // the subgroup summary: read, not used
        msgSet := true;
      } else if StartsWith(textblock, START_MARKER) {
        msgSet := true;
        formStart := true;
      } else if StartsWith(textblock, END_MARKER) {
        msgSet := true;
        formStart := false;
      }
      if DEBUG && !msgSet {
        return true, modeInfoParagraphs;
      }
      if formStart {
        modeInfoParagraphs := modeInfoParagraphs + [Split(textblock, '\n')];
      }
      i := i + 1;
    }
    assert paragraphs[..|paragraphs|] == paragraphs;
    return false, modeInfoParagraphs;
  }

  /** The loop that computes `num_components`. */
  method CountComponents(modes: seq<seq<string>>) returns (numComponents: int)
    ensures numComponents == ComponentCount(modes)
  {
    var numModes := |modes|;
    numComponents := -numModes;
    var k := 0;
    while k < numModes
      invariant 0 <= k <= numModes
      invariant numComponents == LineCount(modes[..k]) - numModes
    {
      assert modes[..k + 1][..k] == modes[..k];
      numComponents := numComponents + |modes[k]|;
      k := k + 1;
    }
    assert modes[..numModes] == modes;
  }

  /** The inner loop that fills `components_out` from the amplitudes at
      positions start, start + 1, ...; it fails at the first position past the end. */
  method FillComponents<A>(modeComponents: seq<string>, modeAmplitudes: seq<A>, start: nat)
    returns (componentsOut: Option<Dict<string, A>>)
    requires start <= |modeAmplitudes|
    ensures componentsOut.Some? <==> start + |modeComponents| <= |modeAmplitudes|
    ensures componentsOut.Some? ==>
      componentsOut.value == PutAll([], Zip(modeComponents, modeAmplitudes[start..start + |modeComponents|]))
  {
    var out: Dict<string, A> := [];
    var c := 0;
    while c < |modeComponents|
      invariant 0 <= c <= |modeComponents|
      invariant start + c <= |modeAmplitudes|
      invariant out == PutAll([], Zip(modeComponents[..c], modeAmplitudes[start..start + c]))
    {
      var j := start + c;
      if j >= |modeAmplitudes| {
        return None;
      }
      ZipSnoc(modeComponents, modeAmplitudes[start..], c);
      assert modeAmplitudes[start..][..c] == modeAmplitudes[start..start + c];
      assert modeAmplitudes[start..][..c + 1] == modeAmplitudes[start..start + c + 1];
      PutAllSnoc([], Zip(modeComponents[..c], modeAmplitudes[start..start + c]), (modeComponents[c], modeAmplitudes[j]));
      out := Put(out, modeComponents[c], modeAmplitudes[j]);
      c := c + 1;
    }
    assert modeComponents[..c] == modeComponents;
    return Some(out);
  }

  /** One turn of the loop over the mode paragraphs: paragraph k, with `last`
      amplitudes handed out before it. */
  method ReadMode<A>(mode: seq<string>, modeAmplitudes: seq<A>, k: nat, last: nat) returns (step: Step<A>)
    requires last <= |modeAmplitudes|
    ensures step == ModeStep(mode, modeAmplitudes, k, last)
  {
    if |mode| == 0 {
      return Failed(EmptyParagraph(k));
    }
    var modeComponents := mode[1..];
    var lastComponent := last + |modeComponents|;
    var parsed := ParseInfo(mode[0]);
    if parsed.None? {
      return Failed(ShortInfoLine(k));
    }
    var componentsOut := FillComponents(modeComponents, modeAmplitudes, last);
    if componentsOut.None? {
      return Failed(MissingAmplitude(k));
    }
    return Made(parsed.value.irrep, ModeEntry(parsed.value.info, componentsOut.value), lastComponent);
  }

  /** The loop over the mode paragraphs that builds `results`. */
  method BuildResults<A>(modes: seq<seq<string>>, modeAmplitudes: seq<A>) returns (r: Outcome<A>)
    ensures r == BuildFrom(modes, modeAmplitudes, 0, 0, [])
  {
    var results: Dict<string, ModeEntry<A>> := [];
    var lastComponent: nat := 0;
    var m := 0;
    while m < |modes|
      invariant 0 <= m <= |modes|
      invariant lastComponent <= |modeAmplitudes|
      invariant BuildFrom(modes, modeAmplitudes, m, lastComponent, results)
             == BuildFrom(modes, modeAmplitudes, 0, 0, [])
    {
      var step := ReadMode(modes[m], modeAmplitudes, m, lastComponent);
      if step.Failed? {
        return IndexError(step.site);
      }
      results := Put(results, step.irrep, step.entry);
      lastComponent := step.next;
      m := m + 1;
    }
    return Modes(results);
  }

  /** `read_mode_amplitudes`, step by step as the script does it. */
  method ReadModeAmplitudes<A>(boxes: seq<TextBox<A>>, paragraphs: seq<string>) returns (r: Outcome<A>)
    ensures r == ParseResultPage(boxes, paragraphs)
  {
    var modeAmplitudes := ReadAmplitudeBoxes(boxes);
    var unbound, modeInfoParagraphs := CollectModeParagraphs(paragraphs);
    if unbound {
      return MessageUnbound;
    }
    if |modeInfoParagraphs| == 0 {
      return NoModesFound;
    }
    modeInfoParagraphs := modeInfoParagraphs[1..];
    var numModes := |modeInfoParagraphs|;
    if numModes == 0 {
      return IndexError(EmptyModeList);
    }
    var lastParagraph := modeInfoParagraphs[numModes - 1];
    var trimmed := modeInfoParagraphs[numModes - 1 := lastParagraph[..|lastParagraph| - 1]];
    modeInfoParagraphs := seq(numModes, k requires 0 <= k < numModes => NonEmptyLines(trimmed[k]));
    assert modeInfoParagraphs == ModeParagraphs(paragraphs);
    var numComponents := CountComponents(modeInfoParagraphs);
    if numComponents != |modeAmplitudes| {
      return CountMismatch;
    }
    r := BuildResults(modeInfoParagraphs, modeAmplitudes);
  }

  // ---------------------------------------------------------------------------
  // transform_basis

  /** A 3 x 3 integer matrix, as a list of rows. */
  type Matrix3 = m: seq<seq<int>> | |m| == 3 && forall r :: 0 <= r < 3 ==> |m[r]| == 3
    witness [[0, 0, 0], [0, 0, 0], [0, 0, 0]]

  /** `flatten()`: the entries row by row. */
  function Flatten(m: Matrix3): (flat: seq<int>)
    ensures |flat| == 9
  {
    m[0] + m[1] + m[2]
  }

  /** Entry (r, c) is at position 3r + c of the flattened matrix. */
  lemma FlattenRowMajor(m: Matrix3, r: nat, c: nat)
    requires r < 3 && c < 3
    ensures Flatten(m)[3 * r + c] == m[r][c]
  {
  }

  /** When the nine cells after position SPECIFY_BASIS hold the flattened matrix,
      entry (r, c) is in the cell at 3r + c. */
  lemma CellOfEntry(cells: seq<string>, m: Matrix3, r: nat, c: nat)
    requires |cells| >= SPECIFY_BASIS + 9 && r < 3 && c < 3
    requires forall k :: SPECIFY_BASIS <= k < SPECIFY_BASIS + 9 ==> cells[k] == IntText(Flatten(m)[k - SPECIFY_BASIS])
    ensures cells[SPECIFY_BASIS + 3 * r + c] == IntText(m[r][c])
  {
    FlattenRowMajor(m, r, c);
  }

  /** XPath position of the 'specify basis as' control, `input[71]`; the nine
      matrix cells are `input[72]` to `input[80]`. */
  const SPECIFY_BASIS := 71

  /** `transform_basis` on the form's direct `input` children, where `form[p - 1]`
      is the control at XPath position p. It fails (the lookup raises) when a
      control is missing, after filling the cells that come before it. */
  method TransformBasis(form: array<string>, m: Matrix3) returns (ok: bool)
    modifies form
    ensures ok <==> form.Length >= SPECIFY_BASIS + 9
    ensures forall k :: 0 <= k < form.Length ==>
      form[k] == if form.Length >= SPECIFY_BASIS && SPECIFY_BASIS <= k < SPECIFY_BASIS + 9
                 then IntText(Flatten(m)[k - SPECIFY_BASIS]) else old(form[k])
  {
    if form.Length < SPECIFY_BASIS {
      return false;
    }
    var matrix := Flatten(m);
    var i := 0;
    while i < 9
      invariant 0 <= i <= 9
      invariant SPECIFY_BASIS + i <= form.Length
      invariant forall k :: 0 <= k < form.Length ==>
        form[k] == if SPECIFY_BASIS <= k < SPECIFY_BASIS + i then IntText(matrix[k - SPECIFY_BASIS]) else old(form[k])
    {
      var el := SPECIFY_BASIS + 1 + i;
      if el > form.Length {
        return false;
      }
      form[el - 1] := IntText(matrix[i]);
      i := i + 1;
    }
    return true;
  }
}
