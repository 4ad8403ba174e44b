/** get_user_selection: one answer typed at the prompt, turned into the
    operator's choice among the listed KML files. */
module Selection {
  import opened Strings

  /** What one prompt yields: leave the program, an answer with no usable
      number (asked again), fewer than two files (asked again after the list
      is refreshed), or the files to merge. */
  datatype SelectionOutcome = Exit | Invalid | TooFew | Selected(files: seq<string>)

  /** A merge needs at least two files. */
  const MinimumFiles: nat := 2

  /** A stripped token names file `k` (1-based) of `n` when it is all digits
      and 1 <= k <= n. */
  predicate IsValidToken(token: string, n: nat) {
    IsDigits(token) && 1 <= DigitsValue(token) <= n
  }

  /** No token, once stripped, names one of `n` files. */
  predicate NoValidToken(tokens: seq<string>, n: nat) {
    forall i :: 0 <= i < |tokens| ==> !IsValidToken(Strip(tokens[i]), n)
  }

  /** What one comma-separated token adds to the selection: at most one
      name, and only a listed one. */
  function Contribution(token: string, files: seq<string>): (c: seq<string>)
    ensures |c| <= 1
    ensures forall f :: f in c ==> f in files
  {
    var t := Strip(token);
    if IsValidToken(t, |files|) then [files[DigitsValue(t) - 1]] else []
  }

  /** The files the tokens name, in token order, duplicates kept: never
      more names than tokens, and every one of them listed. */
  function Pick(tokens: seq<string>, files: seq<string>): (picked: seq<string>)
    ensures |picked| <= |tokens|
    ensures forall f :: f in picked ==> f in files
  {
    if tokens == [] then []
    else Pick(tokens[..|tokens| - 1], files) + Contribution(tokens[|tokens| - 1], files)
  }

  /** The two-file minimum of line 141. */
  function Enough(selected: seq<string>): SelectionOutcome {
    if |selected| < MinimumFiles then TooFew else Selected(selected)
  }

  /** The outcome of one answer `input` when `files` are listed. */
  function Select(input: string, files: seq<string>): (r: SelectionOutcome)
    ensures r == Exit <==> Lower(Strip(input)) == "e"
    ensures r.Selected? ==> |r.files| >= MinimumFiles
    ensures r.Selected? ==> forall f :: f in r.files ==> f in files
  {
    var line := Lower(Strip(input));
    if line == "e" then Exit
    else if line == "" then Enough(files)
    else
      var picked := Pick(Split(line, ','), files);
      if picked == [] then Invalid else Enough(picked)
  }

  /** The prompt's parsing as get_user_selection does it (lines 128-132),
      appending to the selected list token by token. */
  method GetUserSelection(input: string, files: seq<string>) returns (outcome: SelectionOutcome)
    ensures outcome == Select(input, files)
  {
    var line := Lower(Strip(input));
    if line == "e" {
      return Exit;
    }
    var selected: seq<string>;
    if line == "" {
      selected := files;
    } else {
      var tokens := Split(line, ',');
      selected := [];
      var i := 0;
      while i < |tokens|
        invariant 0 <= i <= |tokens|
        invariant selected == Pick(tokens[..i], files)
      {
        assert tokens[..i + 1][..i] == tokens[..i];
        assert Pick(tokens[..i + 1], files) == Pick(tokens[..i], files) + Contribution(tokens[i], files);
        var token := Strip(tokens[i]);
        if IsDigits(token) && 1 <= DigitsValue(token) <= |files| {
          selected := selected + [files[DigitsValue(token) - 1]];
        }
        i := i + 1;
      }
      assert tokens[..i] == tokens;
      if selected == [] {
        return Invalid;
      }
    }
    if |selected| < MinimumFiles {
      outcome := TooFew;
    } else {
      outcome := Selected(selected);
    }
  }

  /** Selection is token by token: the tokens of a concatenation select the
      concatenation of what each part selects, so input order is kept. */
  lemma {:induction false} PickConcat(a: seq<string>, b: seq<string>, files: seq<string>)
    ensures Pick(a + b, files) == Pick(a, files) + Pick(b, files)
  {
    if b != [] {
      var b' := b[..|b| - 1];
      assert (a + b)[..|a + b| - 1] == a + b';
      assert (a + b)[|a + b| - 1] == b[|b| - 1];
      PickConcat(a, b', files);
      assert Pick(a + b, files) == Pick(a + b', files) + Contribution(b[|b| - 1], files);
      assert Pick(b, files) == Pick(b', files) + Contribution(b[|b| - 1], files);
    } else {
      assert a + b == a;
    }
  }

  /** A single token selects `files[k - 1]` exactly when, stripped, it spells
      some k in 1..n; any other token selects nothing. */
  lemma PickToken(token: string, files: seq<string>)
    ensures IsValidToken(Strip(token), |files|) ==>
              Pick([token], files) == [files[DigitsValue(Strip(token)) - 1]]
    ensures !IsValidToken(Strip(token), |files|) ==> Pick([token], files) == []
  {
    assert [token][..0] == [];
    assert Pick([token], files) == Contribution(token, files);
  }

  /** Nothing is selected exactly when no token is valid. */
  lemma {:induction false} PickEmpty(tokens: seq<string>, files: seq<string>)
    ensures Pick(tokens, files) == [] <==> NoValidToken(tokens, |files|)
  {
    if tokens != [] {
      var init := tokens[..|tokens| - 1];
      var last := tokens[|tokens| - 1];
      assert Pick(tokens, files) == Pick(init, files) + Contribution(last, files);
      PickEmpty(init, files);
      assert forall i :: 0 <= i < |init| ==> init[i] == tokens[i];
    }
  }

  /** An answer that is empty once stripped selects every listed file, in
      listing order, subject to the two-file minimum. */
  lemma EmptyInputSelectsAll(input: string, files: seq<string>)
    requires Strip(input) == ""
    ensures |files| >= MinimumFiles ==> Select(input, files) == Selected(files)
    ensures |files| < MinimumFiles ==> Select(input, files) == TooFew
  {
  }

  /** The answer is rejected as invalid exactly when it is neither `e` nor
      empty and no comma-separated token names a listed file. */
  lemma InvalidIff(input: string, files: seq<string>)
    ensures Select(input, files) == Invalid <==>
      var line := Lower(Strip(input));
      line != "e" && line != "" && NoValidToken(Split(line, ','), |files|)
  {
    var line := Lower(Strip(input));
    var tokens := Split(line, ',');
    PickEmpty(tokens, files);
    if line != "e" && line != "" {
      assert Enough(Pick(tokens, files)) != Invalid;
      assert Select(input, files) == if Pick(tokens, files) == [] then Invalid else Enough(Pick(tokens, files));
    }
  }

  /** A list is returned only with at least two entries; a non-empty one
      that is shorter asks again. */
  lemma TooFewIff(input: string, files: seq<string>)
    ensures Select(input, files) == TooFew <==>
      var line := Lower(Strip(input));
      (line == "" && |files| < MinimumFiles) ||
      (line != "e" && line != "" && 0 < |Pick(Split(line, ','), files)| < MinimumFiles)
  {
  }

  /** For a line that is neither `e` nor empty, the files returned are
      exactly those its tokens pick, and they are returned exactly when
      there are at least two of them. */
  lemma SelectedIff(input: string, files: seq<string>)
    ensures var line := Lower(Strip(input));
      line != "e" && line != "" ==>
        (Select(input, files).Selected? <==> |Pick(Split(line, ','), files)| >= MinimumFiles)
    ensures var line := Lower(Strip(input));
      line != "" && Select(input, files).Selected? ==>
        Select(input, files).files == Pick(Split(line, ','), files)
  {
  }

  /** Two digit strings around a comma are left alone by strip and lower. */
  lemma NumbersLine(a: string, b: string)
    requires IsDigits(a) && IsDigits(b)
    ensures Lower(Strip(a + "," + b)) == a + "," + b
  {
    var line := a + "," + b;
    assert IsDigitChar(a[0]) && IsDigitChar(b[|b| - 1]);
    assert line[0] == a[0] && line[|line| - 1] == b[|b| - 1];
    StripSurrounded([], line, []);
    assert [] + line + [] == line;
    forall i | 0 <= i < |line|
      ensures !('A' <= line[i] <= 'Z')
    {
      if i < |a| {
        assert line[i] == a[i];
      } else if i > |a| {
        assert line[i] == b[i - |a| - 1];
      }
    }
    LowerUnchanged(line);
  }

  /** The two numbers of `a,b` are its two tokens. */
  lemma NumbersSplit(a: string, b: string)
    requires IsDigits(a) && IsDigits(b)
    ensures Split(a + "," + b, ',') == [a, b]
  {
    assert a + "," + b == Join([a, b], ',');
    forall i | 0 <= i < |a|
      ensures a[i] != ','
    {
      assert IsDigitChar(a[i]);
    }
    forall i | 0 <= i < |b|
      ensures b[i] != ','
    {
      assert IsDigitChar(b[i]);
    }
    SplitJoin([a, b], ',');
  }

  /** The decimal spelling of a number in range selects that file. */
  lemma DecimalToken(j: nat, files: seq<string>)
    requires 1 <= j <= |files|
    ensures Pick([Decimal(j)], files) == [files[j - 1]]
  {
    var a := Decimal(j);
    assert IsDigitChar(a[0]) && IsDigitChar(a[|a| - 1]);
    StripSurrounded([], a, []);
    assert [] + a + [] == a;
    PickToken(a, files);
  }

  /** Typing two numbers `j,k` in range selects those two files in that
      order, the same file twice when j == k. */
  lemma {:induction false} TwoNumbers(j: nat, k: nat, files: seq<string>)
    requires 1 <= j <= |files| && 1 <= k <= |files|
    ensures Select(Decimal(j) + "," + Decimal(k), files) == Selected([files[j - 1], files[k - 1]])
  {
    var a, b := Decimal(j), Decimal(k);
    var line := a + "," + b;
    NumbersLine(a, b);
    NumbersSplit(a, b);
    DecimalToken(j, files);
    DecimalToken(k, files);
    PickConcat([a], [b], files);
    assert [a] + [b] == [a, b];
    assert Pick(Split(line, ','), files) == [files[j - 1], files[k - 1]];
    assert line != "e" && line != "";
  }
}
