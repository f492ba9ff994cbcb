/** The requirements manager of `create_structure.py` (`manage_requirements`):
    loading `requirements.txt` into a list of entries, the interactive session
    that appends new entries to that list, and the text written back. */
module Requirements {
  import opened Text
  import opened Wrappers

  /** `line.startswith('#')` on the raw, untrimmed line. */
  predicate StartsWithHash(line: string) {
    |line| > 0 && line[0] == '#'
  }

  /** The filter of the load comprehension: the stripped line is not empty and
      the raw line does not start with `#`. */
  predicate Kept(line: string) {
    Trim(line) != [] && !StartsWithHash(line)
  }

  /** The load comprehension over the lines of the file, in order. */
  function Entries(lines: seq<string>): (es: seq<string>)
    ensures |es| <= |lines|
    ensures forall e :: e in es ==> e != [] && Trim(e) == e
  {
    if lines == [] then []
    else if Kept(lines[0]) then
      TrimIdempotent(lines[0]);
      [Trim(lines[0])] + Entries(lines[1..])
    else Entries(lines[1..])
  }

  /** An entry that can be written as one line: not empty, already stripped, and
      free of line breaks. */
  predicate Storable(e: string) {
    e != [] && Trim(e) == e && '\n' !in e && '\r' !in e
  }

  /** A storable entry that the loader does not mistake for a comment. */
  predicate Clean(e: string) {
    Storable(e) && e[0] != '#'
  }

  /** The packages read from the text of `requirements.txt`. */
  function Load(text: string): (es: seq<string>)
    ensures forall e :: e in es ==> Storable(e)
  {
    var lines := FileLines(Translate(text));
    FileLinesNoCarriageReturn(Translate(text));
    EntriesStorable(lines);
    Entries(lines)
  }

  /** Text without carriage returns is loaded line by line as it stands. */
  lemma LoadWithoutCarriageReturn(text: string)
    requires '\r' !in text
    ensures Load(text) == Entries(FileLines(text))
  {
    TranslateIdentity(text);
  }

  /** The list a session starts from: empty when the file does not exist. */
  function Loaded(manifest: Option<string>): seq<string> {
    match manifest
    case None => []
    case Some(text) => Load(text)
  }

  /** A line read from a file loses its break when stripped. */
  lemma StrippedLineHasNoBreak(l: string)
    requires l != [] && '\n' !in l[..|l| - 1]
    ensures '\n' !in Trim(l)
  {
    var body := l[..|l| - 1];
    assert l == body + [l[|l| - 1]];
    if l[|l| - 1] == '\n' {
      TrimTrailingSpace(body, '\n');
      if '\n' in Trim(l) {
        TrimChars(body, '\n');
      }
    } else if '\n' in Trim(l) {
      TrimChars(l, '\n');
    }
  }

  lemma {:induction false} EntriesStorable(lines: seq<string>)
    requires forall l :: l in lines ==> l != [] && '\n' !in l[..|l| - 1] && '\r' !in l
    ensures forall e :: e in Entries(lines) ==> Storable(e)
  {
    if lines != [] {
      EntriesStorable(lines[1..]);
      var l := lines[0];
      assert l in lines;
      if Kept(l) {
        StrippedLineHasNoBreak(l);
        if '\r' in Trim(l) {
          TrimChars(l, '\r');
        }
      }
    }
  }

  /** `'\n'.join(packages)`. */
  function Join(es: seq<string>): string {
    if es == [] then []
    else if |es| == 1 then es[0]
    else es[0] + "\n" + Join(es[1..])
  }

  /** The text written to `requirements.txt`: the entries joined by `\n`, plus
      one trailing `\n`. */
  function Serialize(es: seq<string>): (t: string)
    ensures |t| > 0 && t[|t| - 1] == '\n'
  {
    Join(es) + "\n"
  }

  /** The entries of a list that the loader does not take for comments. */
  function Unhashed(es: seq<string>): (r: seq<string>)
    ensures forall e :: e in r ==> e in es && !StartsWithHash(e)
  {
    if es == [] then []
    else if StartsWithHash(es[0]) then Unhashed(es[1..])
    else [es[0]] + Unhashed(es[1..])
  }

  lemma {:induction false} SerializeHasNoCarriageReturn(es: seq<string>)
    requires forall e :: e in es ==> '\r' !in e
    ensures '\r' !in Serialize(es)
  {
    if |es| > 1 {
      SerializeHasNoCarriageReturn(es[1..]);
      assert Serialize(es) == es[0] + "\n" + Serialize(es[1..]);
    }
  }

  /** The written text is the first entry's line followed by the rest. */
  lemma SerializeCons(es: seq<string>)
    requires es != []
    ensures Serialize(es) == es[0] + "\n" + (if |es| == 1 then [] else Serialize(es[1..]))
  {
  }

  /** A storable entry written as a line is loaded back unless it starts with `#`. */
  lemma EntriesOfWrittenLine(e: string, lines: seq<string>)
    requires Storable(e)
    ensures Entries([e + "\n"] + lines) ==
      (if StartsWithHash(e) then [] else [e]) + Entries(lines)
  {
    TrimTrailingSpace(e, '\n');
    assert ([e + "\n"] + lines)[1..] == lines;
    assert StartsWithHash(e + "\n") == StartsWithHash(e);
  }

  lemma {:induction false} SerializedLinesReload(es: seq<string>)
    requires forall e :: e in es ==> Storable(e)
    ensures Entries(FileLines(Serialize(es))) == Unhashed(es)
  {
    if es == [] {
      FileLinesOfLine([]);
      TrimEmpty("\n");
      assert Entries(["\n"]) == [];
    } else {
      var e := es[0];
      assert e in es;
      var rest := if |es| == 1 then [] else Serialize(es[1..]);
      SerializeCons(es);
      FileLinesCons(e, rest);
      EntriesOfWrittenLine(e, FileLines(rest));
      if |es| > 1 {
        SerializedLinesReload(es[1..]);
      }
    }
  }

  /** Loading what was written gives back the list without the entries the
      loader takes for comments. */
  lemma ReloadSerialized(es: seq<string>)
    requires forall e :: e in es ==> Storable(e)
    ensures Load(Serialize(es)) == Unhashed(es)
  {
    SerializeHasNoCarriageReturn(es);
    TranslateIdentity(Serialize(es));
    SerializedLinesReload(es);
  }

  /** The round trip: writing a list of clean entries and loading the file gives
      the same list back. */
  lemma RoundTrip(es: seq<string>)
    requires forall e :: e in es ==> Clean(e)
    ensures Load(Serialize(es)) == es
  {
    ReloadSerialized(es);
    UnhashedOfClean(es);
  }

  lemma {:induction false} UnhashedOfClean(es: seq<string>)
    requires forall e :: e in es ==> Clean(e)
    ensures Unhashed(es) == es
  {
    if es != [] {
      assert es[0] in es;
      UnhashedOfClean(es[1..]);
    }
  }

  /** Rewriting a loaded file drops the lines that were kept only because their
      `#` was indented: one load-and-write later the list is `Unhashed`. */
  lemma RewriteOfLoaded(text: string)
    ensures Load(Serialize(Load(text))) == Unhashed(Load(text))
  {
    ReloadSerialized(Load(text));
  }

  /** A comment indented by a whitespace character is loaded as an entry, without
      its indentation, and is then read as a comment once written back. */
  lemma IndentedCommentKeptThenDropped(w: char, comment: string)
    requires IsSpace(w) && w != '\n' && w != '\r'
    requires Storable(comment) && StartsWithHash(comment)
    ensures Load([w] + comment + "\n") == [comment]
    ensures Load(Serialize([comment])) == []
  {
    var line := [w] + comment + "\n";
    LoadWithoutCarriageReturn(line);
    FileLinesOfLine([w] + comment);
    assert ([w] + comment)[1..] == comment;
    assert TrimLeft([w] + comment) == TrimLeft(comment);
    TrimTrailingSpace([w] + comment, '\n');
    assert Kept(line) && Trim(line) == comment;
    assert Entries([line]) == [comment];
    ReloadSerialized([comment]);
  }

  /* ---------------------------------------------------------------------- */
  /* The interactive session                                                */
  /* ---------------------------------------------------------------------- */

  /** How a session ends: `skip` was typed, the list was empty at the end, the
      file was rewritten with `text`, or the input ran out (`input()` raises
      `EOFError`, which nothing catches). */
  datatype Outcome = Skipped | NothingToDo | Write(text: string) | EndOfInput

  predicate NoDuplicates(s: seq<string>) {
    forall i, j :: 0 <= i < j < |s| ==> s[i] != s[j]
  }

  /** The list after the stripped inputs `xs` were each appended unless already
      present. */
  function Added(packages: seq<string>, xs: seq<string>): seq<string>
    decreases |xs|
  {
    if xs == [] then packages
    else
      var q := Added(packages, xs[..|xs| - 1]);
      var x := xs[|xs| - 1];
      if x in q then q else q + [x]
  }

  /** Independent description of what a session adds: the inputs, in order, that
      are neither in the loaded list nor entered earlier. */
  function FirstOccurrences(packages: seq<string>, xs: seq<string>): seq<string>
    decreases |xs|
  {
    if xs == [] then []
    else
      var init := xs[..|xs| - 1];
      var x := xs[|xs| - 1];
      FirstOccurrences(packages, init) + (if x in packages || x in init then [] else [x])
  }

  /** A stripped input that ends the loop: `skip` in any case, or nothing. */
  predicate Stops(input: string) {
    IsSkipWord(input) || input == []
  }

  /** Index of the first input that ends the loop, `|inputs|` when none does. */
  function FirstStop(inputs: seq<string>): (k: nat)
    ensures k <= |inputs|
    ensures forall j :: 0 <= j < k ==> !Stops(inputs[j])
    ensures k < |inputs| ==> Stops(inputs[k])
  {
    if inputs == [] || Stops(inputs[0]) then 0 else 1 + FirstStop(inputs[1..])
  }

  /** The list when the loop ends. */
  function SessionList(packages: seq<string>, inputs: seq<string>): seq<string> {
    Added(packages, inputs[..FirstStop(inputs)])
  }

  /** What a session starting from `packages` does with the stripped `inputs`. */
  function SessionOutcome(packages: seq<string>, inputs: seq<string>): Outcome {
    var k := FirstStop(inputs);
    if k == |inputs| then EndOfInput
    else if IsSkipWord(inputs[k]) then Skipped
    else
      var final := SessionList(packages, inputs);
      if final == [] then NothingToDo else Write(Serialize(final))
  }

  /** The first input that ends the loop is the one at `i`. */
  lemma FirstStopAt(inputs: seq<string>, i: nat)
    requires i <= |inputs|
    requires forall j :: 0 <= j < i ==> !Stops(inputs[j])
    requires i < |inputs| ==> Stops(inputs[i])
    ensures FirstStop(inputs) == i
  {
  }

  /** One more input appends it unless it is already present. */
  lemma AddedSnoc(loaded: seq<string>, inputs: seq<string>, i: nat)
    requires i < |inputs|
    ensures var q := Added(loaded, inputs[..i]);
      Added(loaded, inputs[..i + 1]) == if inputs[i] in q then q else q + [inputs[i]]
  {
    assert inputs[..i + 1][..i] == inputs[..i];
  }

  /** The input loop of `manage_requirements` and the decision that follows it,
      over the stripped lines `inputs`: read packages until an empty line or
      `skip`, appending each one not yet in the list, then write the list back
      unless it is empty. */
  method RunSession(loaded: seq<string>, inputs: seq<string>) returns (outcome: Outcome)
    ensures outcome == SessionOutcome(loaded, inputs)
  {
    var packages := loaded;
    var i := 0;
    while true
      invariant i <= |inputs|
      invariant forall j :: 0 <= j < i ==> !Stops(inputs[j])
      invariant packages == Added(loaded, inputs[..i])
      decreases |inputs| - i
    {
      if i == |inputs| {
        FirstStopAt(inputs, i);
        return EndOfInput;
      }
      var package := inputs[i];
      if IsSkipWord(package) {
        FirstStopAt(inputs, i);
        return Skipped;
      }
      if package == [] {
        break;
      }
      AddedSnoc(loaded, inputs, i);
      if package !in packages {
        packages := packages + [package];
      }
      i := i + 1;
    }
    FirstStopAt(inputs, i);
    assert SessionList(loaded, inputs) == packages;
    if packages == [] {
      return NothingToDo;
    }
    return Write(Serialize(packages));
  }

  /** `manage_requirements`: load the file when it exists, then run the session
      on the typed lines, each stripped. */
  method ManageRequirements(manifest: Option<string>, lines: seq<string>)
    returns (outcome: Outcome)
    ensures outcome == SessionOutcome(Loaded(manifest), Trims(lines))
  {
    var packages := Loaded(manifest);
    outcome := RunSession(packages, Trims(lines));
  }

  /* ---------------------------------------------------------------------- */
  /* Properties of a session                                                */
  /* ---------------------------------------------------------------------- */

  /** Nothing is removed or reordered: the list a session starts from is a
      prefix of the list at every later point. */
  lemma {:induction false} AddedExtends(packages: seq<string>, xs: seq<string>)
    ensures packages <= Added(packages, xs)
    decreases |xs|
  {
    if xs != [] {
      AddedExtends(packages, xs[..|xs| - 1]);
    }
  }

  /** The list after the inputs holds exactly what it held and what was entered. */
  lemma {:induction false} AddedMembers(packages: seq<string>, xs: seq<string>, x: string)
    ensures x in Added(packages, xs) <==> x in packages || x in xs
    decreases |xs|
  {
    if xs != [] {
      var init := xs[..|xs| - 1];
      AddedMembers(packages, init, x);
      assert xs == init + [xs[|xs| - 1]];
    }
  }

  /** No new duplicates: a list without duplicates stays without. */
  lemma {:induction false} AddedNoDuplicates(packages: seq<string>, xs: seq<string>)
    requires NoDuplicates(packages)
    ensures NoDuplicates(Added(packages, xs))
    decreases |xs|
  {
    if xs != [] {
      AddedNoDuplicates(packages, xs[..|xs| - 1]);
    }
  }

  /** Each distinct new string is appended once, in the order first entered. */
  lemma {:induction false} AddedIsFirstOccurrences(packages: seq<string>, xs: seq<string>)
    ensures Added(packages, xs) == packages + FirstOccurrences(packages, xs)
    decreases |xs|
  {
    if xs != [] {
      var init := xs[..|xs| - 1];
      AddedIsFirstOccurrences(packages, init);
      AddedMembers(packages, init, xs[|xs| - 1]);
    }
  }

  /** The list is empty afterwards only if it was empty and nothing was entered. */
  lemma AddedEmpty(packages: seq<string>, xs: seq<string>)
    ensures Added(packages, xs) == [] <==> packages == [] && xs == []
  {
    AddedExtends(packages, xs);
    if xs != [] {
      AddedMembers(packages, xs, xs[0]);
    }
  }

  /** Entering a string that is absent appends it; entering one that is present
      changes nothing. */
  lemma AddOne(packages: seq<string>, xs: seq<string>, x: string)
    ensures x !in packages && x !in xs ==> Added(packages, xs + [x]) == Added(packages, xs) + [x]
    ensures x in packages || x in xs ==> Added(packages, xs + [x]) == Added(packages, xs)
  {
    assert (xs + [x])[..|xs|] == xs;
    AddedMembers(packages, xs, x);
  }

  /** Entering only strings already in the list leaves it unchanged. */
  lemma {:induction false} AddedKnown(packages: seq<string>, xs: seq<string>)
    requires forall x :: x in xs ==> x in packages
    ensures Added(packages, xs) == packages
    decreases |xs|
  {
    if xs != [] {
      var init := xs[..|xs| - 1];
      assert forall x :: x in init ==> x in xs;
      AddedKnown(packages, init);
      assert xs[|xs| - 1] in xs;
    }
  }

  lemma StopAt(xs: seq<string>, s: string, rest: seq<string>)
    requires forall x :: x in xs ==> !Stops(x)
    requires Stops(s)
    ensures FirstStop(xs + [s] + rest) == |xs|
    ensures (xs + [s] + rest)[..|xs|] == xs
  {
    var all := xs + [s] + rest;
    assert forall j :: 0 <= j < |xs| ==> all[j] in xs;
    FirstStopAt(all, |xs|);
  }

  /** `skip`, in any letter case, ends the session without a write, even after
      entries were added. */
  lemma SkipAborts(packages: seq<string>, xs: seq<string>, s: string, rest: seq<string>)
    requires forall x :: x in xs ==> !Stops(x)
    requires IsSkipWord(s)
    ensures SessionOutcome(packages, xs + [s] + rest) == Skipped
  {
    StopAt(xs, s, rest);
  }

  /** An empty input ends the loop; the inputs after it are not read. Nothing is
      written when the list is then empty; otherwise the whole list is. */
  lemma EmptyEnds(packages: seq<string>, xs: seq<string>, rest: seq<string>)
    requires forall x :: x in xs ==> !Stops(x)
    ensures var final := Added(packages, xs);
      SessionOutcome(packages, xs + [[]] + rest) ==
        if final == [] then NothingToDo else Write(Serialize(final))
  {
    StopAt(xs, [], rest);
  }

  /** The session ends with "No packages to add." (`NothingToDo`) exactly when
      the loaded list is empty and the first stripped input is empty. Skipping
      and the end of the input also write nothing, but are other outcomes. */
  lemma NothingToDoExactly(packages: seq<string>, inputs: seq<string>)
    ensures SessionOutcome(packages, inputs) == NothingToDo <==>
      packages == [] && |inputs| > 0 && inputs[0] == []
  {
    var k := FirstStop(inputs);
    AddedEmpty(packages, inputs[..k]);
  }

  /** A write holds the whole list, which extends the list the session started
      from and, when that list had no duplicates, has none either. */
  lemma WriteHoldsWholeList(packages: seq<string>, inputs: seq<string>)
    requires SessionOutcome(packages, inputs).Write?
    ensures SessionOutcome(packages, inputs).text == Serialize(SessionList(packages, inputs))
    ensures packages <= SessionList(packages, inputs)
    ensures NoDuplicates(packages) ==> NoDuplicates(SessionList(packages, inputs))
  {
    var xs := inputs[..FirstStop(inputs)];
    AddedExtends(packages, xs);
    if NoDuplicates(packages) {
      AddedNoDuplicates(packages, xs);
    }
  }

  /** What `manage_requirements` writes loads back as the session's list, less
      the entries that start with `#`, provided no typed line holds a line
      break once stripped (a trailing `\r` is stripped away; one inside a line
      would split the entry when the file is read back). */
  lemma WrittenFileReloads(manifest: Option<string>, lines: seq<string>)
    requires forall l :: l in lines ==> '\n' !in Trim(l) && '\r' !in Trim(l)
    ensures SessionOutcome(Loaded(manifest), Trims(lines)).Write? ==>
      Load(SessionOutcome(Loaded(manifest), Trims(lines)).text) ==
        Unhashed(SessionList(Loaded(manifest), Trims(lines)))
  {
    var p := Loaded(manifest);
    var inputs := Trims(lines);
    if !SessionOutcome(p, inputs).Write? {
      return;
    }
    var k := FirstStop(inputs);
    var xs := inputs[..k];
    forall x | x in SessionList(p, inputs) ensures Storable(x) {
      AddedMembers(p, xs, x);
      if x !in p {
        var j :| 0 <= j < |xs| && xs[j] == x;
        assert lines[j] in lines;
        TrimIdempotent(lines[j]);
        assert !Stops(inputs[j]);
      }
    }
    ReloadSerialized(SessionList(p, inputs));
  }

  /** Example: no file, inputs `fastapi==0.104.1`, `uvicorn`, then an empty line. */
  lemma NewManifestExample()
    ensures SessionOutcome([], ["fastapi==0.104.1", "uvicorn", ""]) ==
      Write("fastapi==0.104.1\nuvicorn\n")
  {
    var xs := ["fastapi==0.104.1", "uvicorn"];
    assert xs + [[]] + [] == ["fastapi==0.104.1", "uvicorn", ""];
    EmptyEnds([], xs, []);
    AddOne([], [], "fastapi==0.104.1");
    AddOne([], ["fastapi==0.104.1"], "uvicorn");
    assert [] + ["fastapi==0.104.1"] == ["fastapi==0.104.1"];
    assert Added([], xs) == xs;
  }

  /** Re-entering only packages that are already listed, then an empty line,
      rewrites a file that this tool wrote with exactly the same text. */
  lemma ReenteredPackagesRewriteSameText(packages: seq<string>, xs: seq<string>)
    requires packages != [] && forall p :: p in packages ==> Clean(p)
    requires forall x :: x in xs ==> !Stops(x) && x in packages
    ensures Load(Serialize(packages)) == packages
    ensures SessionOutcome(Load(Serialize(packages)), xs + [[]]) == Write(Serialize(packages))
  {
    RoundTrip(packages);
    EmptyEnds(packages, xs, []);
    assert xs + [[]] + [] == xs + [[]];
    AddedKnown(packages, xs);
  }
}
