/** Replacing words: strings.ReplaceAll and the folds the policy makes of it. */
module Rewriter {

  datatype Rule = Rule(orig: string, replacement: string)

  predicate StartsWith(s: string, word: string) {
    word <= s
  }

  predicate OccursAt(s: string, word: string, i: nat)
    requires i <= |s|
  {
    StartsWith(s[i..], word)
  }

  predicate Contains(s: string, word: string) {
    exists i: nat | i <= |s| :: OccursAt(s, word, i)
  }

  /** Leftmost, non-overlapping replacement. An empty `orig` matches before every character and at
      the end. */
  function ReplaceAll(s: string, orig: string, replacement: string): string {
    if orig == [] then
      if s == [] then replacement else replacement + [s[0]] + ReplaceAll(s[1..], orig, replacement)
    else if s == [] then []
    else if StartsWith(s, orig) then replacement + ReplaceAll(s[|orig|..], orig, replacement)
    else [s[0]] + ReplaceAll(s[1..], orig, replacement)
  }

  /** The rules applied one after the other, each to the result of the one before. */
  function Fold(s: string, rules: seq<Rule>): string {
    if rules == [] then s
    else ReplaceAll(Fold(s, rules[..|rules| - 1]), rules[|rules| - 1].orig, rules[|rules| - 1].replacement)
  }

  /** No character of one occurs in the other. */
  predicate Disjoint(a: string, b: string) {
    forall c | c in a :: c !in b
  }

  // ---------------------------------------------------------------- where words occur

  lemma ContainsTail(s: string, word: string, k: nat)
    requires k <= |s| && Contains(s[k..], word)
    ensures Contains(s, word)
  {
    var i: nat :| i <= |s[k..]| && OccursAt(s[k..], word, i);
    assert s[k..][i..] == s[k + i..];
    assert OccursAt(s, word, k + i);
  }

  lemma ContainsHere(s: string, word: string)
    requires StartsWith(s, word)
    ensures Contains(s, word)
  {
    assert s[0..] == s;
    assert OccursAt(s, word, 0);
  }

  lemma ContainsCons(s: string, word: string)
    requires s != []
    ensures Contains(s, word) <==> StartsWith(s, word) || Contains(s[1..], word)
  {
    if Contains(s, word) && !StartsWith(s, word) {
      var i: nat :| i <= |s| && OccursAt(s, word, i);
      assert i != 0 by {
        assert s[0..] == s;
      }
      assert s[1..][i - 1..] == s[i..];
      assert OccursAt(s[1..], word, i - 1);
    }
    if StartsWith(s, word) {
      ContainsHere(s, word);
    }
    if Contains(s[1..], word) {
      ContainsTail(s, word, 1);
    }
  }

  /** A word occurs in a text that is made of it and what stands around it. */
  lemma ContainsExactlyWhen(s: string, word: string)
    ensures Contains(s, word) <==> exists pre, post :: s == pre + word + post
  {
    if Contains(s, word) {
      var i: nat :| i <= |s| && OccursAt(s, word, i);
      assert s[i..] == word + s[i..][|word|..];
      assert s == s[..i] + word + s[i..][|word|..];
    }
    if pre, post :| s == pre + word + post {
      assert s[|pre|..] == word + post;
      assert OccursAt(s, word, |pre|);
    }
  }

  lemma NotPrefix(a: string, rest: string, word: string)
    requires a != [] && word != [] && Disjoint(a, word)
    ensures !StartsWith(a + rest, word)
  {
    assert (a + rest)[0] == a[0];
    assert word[0] in word;
  }

  /** A word that shares no character with `replacement` and begins the result began the input. */
  lemma {:induction false} PrefixSurvives(s: string, orig: string, replacement: string, word: string)
    requires orig != [] && replacement != [] && Disjoint(replacement, word)
    requires StartsWith(ReplaceAll(s, orig, replacement), word)
    ensures StartsWith(s, word)
    decreases |s|
  {
    if word != [] && s != [] {
      if StartsWith(s, orig) {
        NotPrefix(replacement, ReplaceAll(s[|orig|..], orig, replacement), word);
      } else {
        assert ReplaceAll(s, orig, replacement)[1..] == ReplaceAll(s[1..], orig, replacement);
        PrefixSurvives(s[1..], orig, replacement, word[1..]);
      }
    }
  }

  /** An occurrence in the result starts beyond any leading copy of the replacement. */
  lemma SkipReplacement(replacement: string, rest: string, word: string)
    requires word != [] && Disjoint(replacement, word) && Contains(replacement + rest, word)
    ensures Contains(rest, word)
  {
    var s := replacement + rest;
    var i: nat :| i <= |s| && OccursAt(s, word, i);
    assert i >= |replacement| by {
      if i < |replacement| {
        assert s[i..] == replacement[i..] + rest;
        NotPrefix(replacement[i..], rest, word);
      }
    }
    assert s[i..] == rest[i - |replacement|..];
    assert OccursAt(rest, word, i - |replacement|);
  }

  /** Such a word occurs in the result only if it occurred in the input, and is not the word that
      was replaced. */
  lemma {:induction false} OccurrencesSurvive(s: string, orig: string, replacement: string, word: string)
    requires orig != [] && replacement != [] && word != [] && Disjoint(replacement, word)
    requires Contains(ReplaceAll(s, orig, replacement), word)
    ensures Contains(s, word) && word != orig
    decreases |s|
  {
    var result := ReplaceAll(s, orig, replacement);
    if s == [] {
    } else if StartsWith(s, orig) {
      SkipReplacement(replacement, ReplaceAll(s[|orig|..], orig, replacement), word);
      OccurrencesSurvive(s[|orig|..], orig, replacement, word);
      ContainsTail(s, word, |orig|);
    } else {
      assert result[1..] == ReplaceAll(s[1..], orig, replacement);
      ContainsCons(result, word);
      if StartsWith(result, word) {
        PrefixSurvives(s, orig, replacement, word);
        ContainsHere(s, word);
      } else {
        OccurrencesSurvive(s[1..], orig, replacement, word);
        ContainsTail(s, word, 1);
      }
    }
  }

  // ---------------------------------------------------------------- replacing is splitting and joining

  /** The text between the occurrences of `orig` that a scan from the left finds. */
  function Pieces(s: string, orig: string): (pieces: seq<string>)
    requires orig != []
    ensures pieces != []
    decreases |s|
  {
    if s == [] then [[]]
    else if StartsWith(s, orig) then [[]] + Pieces(s[|orig|..], orig)
    else var rest := Pieces(s[1..], orig); [[s[0]] + rest[0]] + rest[1..]
  }

  function Join(pieces: seq<string>, separator: string): string
    requires pieces != []
  {
    if |pieces| == 1 then pieces[0] else pieces[0] + separator + Join(pieces[1..], separator)
  }

  /** Joined with the replacement the pieces are the result. */
  lemma {:induction false} ReplaceIsRejoin(s: string, orig: string, replacement: string)
    requires orig != []
    ensures Join(Pieces(s, orig), replacement) == ReplaceAll(s, orig, replacement)
    decreases |s|
  {
    if s == [] {
    } else if StartsWith(s, orig) {
      ReplaceIsRejoin(s[|orig|..], orig, replacement);
      JoinEmptyFirst(Pieces(s[|orig|..], orig), replacement);
    } else {
      ReplaceIsRejoin(s[1..], orig, replacement);
      JoinAfter(s[0], Pieces(s[1..], orig), replacement);
    }
  }

  /** Joined with the word itself they are the text. */
  lemma PiecesMakeText(s: string, orig: string)
    requires orig != []
    ensures Join(Pieces(s, orig), orig) == s
  {
    ReplaceIsRejoin(s, orig, orig);
    UnchangedExactlyWhen(s, orig, orig);
  }

  lemma JoinEmptyFirst(pieces: seq<string>, separator: string)
    requires pieces != []
    ensures Join([[]] + pieces, separator) == separator + Join(pieces, separator)
  {
    assert ([[]] + pieces)[1..] == pieces;
  }

  lemma JoinAfter(c: char, pieces: seq<string>, separator: string)
    requires pieces != []
    ensures Join([[c] + pieces[0]] + pieces[1..], separator) == [c] + Join(pieces, separator)
  {
    var longer := [[c] + pieces[0]] + pieces[1..];
    if |pieces| > 1 {
      assert longer[1..] == pieces[1..];
      var rest := Join(pieces[1..], separator);
      assert ([c] + pieces[0]) + separator + rest == [c] + (pieces[0] + separator + rest);
    }
  }

  lemma PrefixOfPrefix(s: string, first: string, word: string)
    requires StartsWith(s, first) && StartsWith(first, word)
    ensures StartsWith(s, word)
  {
    assert s[..|word|] == first[..|word|];
  }

  /** And no occurrence was missed: none lies within a piece. */
  lemma {:induction false} PiecesAreFree(s: string, orig: string)
    requires orig != []
    ensures StartsWith(s, Pieces(s, orig)[0])
    ensures forall i | 0 <= i < |Pieces(s, orig)| :: !Contains(Pieces(s, orig)[i], orig)
    decreases |s|
  {
    if s == [] {
    } else if StartsWith(s, orig) {
      PiecesAreFree(s[|orig|..], orig);
    } else {
      var rest := Pieces(s[1..], orig);
      PiecesAreFree(s[1..], orig);
      var first := [s[0]] + rest[0];
      assert first[1..] == rest[0];
      assert StartsWith(s, first);
      ContainsCons(first, orig);
      if StartsWith(first, orig) {
        PrefixOfPrefix(s, first, orig);
      }
    }
  }

  /** The first piece ends where the word occurs first; and so, by the definition, does each one
      after it in the rest of the text. */
  lemma {:induction false} PiecesAreLeftmost(s: string, orig: string)
    requires orig != []
    ensures StartsWith(s, Pieces(s, orig)[0])
    ensures forall k: nat | k < |Pieces(s, orig)[0]| :: !OccursAt(s, orig, k)
    decreases |s|
  {
    if s != [] && !StartsWith(s, orig) {
      PiecesAreLeftmost(s[1..], orig);
      var first := [s[0]] + Pieces(s[1..], orig)[0];
      assert Pieces(s, orig)[0] == first;
      forall k: nat | k < |first|
        ensures !OccursAt(s, orig, k)
      {
        if k == 0 {
          assert s[0..] == s;
        } else {
          assert s[k..] == s[1..][k - 1..];
          assert !OccursAt(s[1..], orig, k - 1);
        }
      }
    }
  }

  // ---------------------------------------------------------------- the fold

  /** Rules whose replacements are not empty and share no character with any word to be replaced. */
  predicate Separated(rules: seq<Rule>) {
    forall i | 0 <= i < |rules| ::
      && rules[i].orig != [] && rules[i].replacement != []
      && forall j | 0 <= j < |rules| :: Disjoint(rules[i].replacement, rules[j].orig)
  }

  /** The rules apply in their order: the later ones to what the first one leaves. */
  lemma {:induction false} FirstRuleFirst(s: string, rules: seq<Rule>)
    requires rules != []
    ensures Fold(s, rules) == Fold(ReplaceAll(s, rules[0].orig, rules[0].replacement), rules[1..])
  {
    var front := rules[..|rules| - 1];
    if front == [] {
      assert rules[1..] == [];
    } else {
      FirstRuleFirst(s, front);
      assert front[1..] == rules[1..][..|rules[1..]| - 1];
    }
  }

  /** So a rule may feed a later one, but not an earlier one. */
  lemma OrderExample()
    ensures Fold("a", [Rule("a", "b"), Rule("b", "c")]) == "c"
    ensures Fold("a", [Rule("b", "c"), Rule("a", "b")]) == "b"
  {
    WholeWord("a", "b");
    WholeWord("b", "c");
    ShortWord("a", "b", "c");
    TwoRules("a", Rule("a", "b"), Rule("b", "c"));
    TwoRules("a", Rule("b", "c"), Rule("a", "b"));
  }

  lemma WholeWord(orig: string, replacement: string)
    requires orig != []
    ensures ReplaceAll(orig, orig, replacement) == replacement
  {
    assert orig == orig + [];
    ReplaceHere(orig, orig, replacement, []);
    assert replacement + [] == replacement;
  }

  lemma TwoRules(s: string, first: Rule, second: Rule)
    ensures Fold(s, [first, second]) ==
            ReplaceAll(ReplaceAll(s, first.orig, first.replacement), second.orig, second.replacement)
  {
    var rules := [first, second];
    assert rules[..1] == [first] && [first][..0] == [];
    assert Fold(s, []) == s;
    assert Fold(s, [first]) == ReplaceAll(s, first.orig, first.replacement);
  }

  /** A text of one other character. */
  lemma ShortWord(s: string, orig: string, replacement: string)
    requires |s| == |orig| == 1 && s != orig
    ensures ReplaceAll(s, orig, replacement) == s
  {
    assert !StartsWith(s, orig);
    assert s[1..] == [];
  }

  /** After the whole fold none of the words is left. */
  lemma {:induction false} FoldRemovesWords(s: string, rules: seq<Rule>)
    requires Separated(rules)
    ensures forall i | 0 <= i < |rules| :: !Contains(Fold(s, rules), rules[i].orig)
  {
    if rules != [] {
      var before, last := rules[..|rules| - 1], rules[|rules| - 1];
      FoldRemovesWords(s, before);
      forall i | 0 <= i < |rules|
        ensures !Contains(Fold(s, rules), rules[i].orig)
      {
        assert i < |before| ==> before[i] == rules[i];
        LastRule(Fold(s, before), last, rules[i].orig);
      }
    }
  }

  /** One more rule: its own word is gone, and one that was gone stays so. */
  lemma LastRule(s: string, rule: Rule, word: string)
    requires rule.orig != [] && rule.replacement != [] && word != [] && Disjoint(rule.replacement, word)
    requires word == rule.orig || !Contains(s, word)
    ensures !Contains(ReplaceAll(s, rule.orig, rule.replacement), word)
  {
    if Contains(ReplaceAll(s, rule.orig, rule.replacement), word) {
      OccurrencesSurvive(s, rule.orig, rule.replacement, word);
    }
  }

  /** Where the word does not occur nothing changes. */
  lemma {:induction false} NothingToReplace(s: string, orig: string, replacement: string)
    requires orig != [] && !Contains(s, orig)
    ensures ReplaceAll(s, orig, replacement) == s
    decreases |s|
  {
    if s != [] {
      ContainsCons(s, orig);
      NothingToReplace(s[1..], orig, replacement);
    }
  }

  lemma {:induction false} NothingToFold(s: string, rules: seq<Rule>)
    requires forall i | 0 <= i < |rules| :: rules[i].orig != [] && !Contains(s, rules[i].orig)
    ensures Fold(s, rules) == s
  {
    if rules != [] {
      NothingToFold(s, rules[..|rules| - 1]);
      NothingToReplace(s, rules[|rules| - 1].orig, rules[|rules| - 1].replacement);
    }
  }

  /** Rewriting a rewritten prompt changes nothing. */
  lemma FoldIsIdempotent(s: string, rules: seq<Rule>)
    requires Separated(rules)
    ensures Fold(Fold(s, rules), rules) == Fold(s, rules)
  {
    FoldRemovesWords(s, rules);
    NothingToFold(Fold(s, rules), rules);
  }

  // ---------------------------------------------------------------- one rule, exactly

  /** With a replacement of another length, the result's length tells whether the word occurred. */
  lemma {:induction false} LengthMoves(s: string, orig: string, replacement: string)
    requires orig != []
    ensures |replacement| == |orig| ==> |ReplaceAll(s, orig, replacement)| == |s|
    ensures |replacement| < |orig| ==> |ReplaceAll(s, orig, replacement)| <= |s|
    ensures |replacement| > |orig| ==> |ReplaceAll(s, orig, replacement)| >= |s|
    ensures |replacement| < |orig| && Contains(s, orig) ==> |ReplaceAll(s, orig, replacement)| < |s|
    ensures |replacement| > |orig| && Contains(s, orig) ==> |ReplaceAll(s, orig, replacement)| > |s|
    decreases |s|
  {
    if s != [] {
      ContainsCons(s, orig);
      LengthMoves(s[1..], orig, replacement);
      if StartsWith(s, orig) {
        LengthMoves(s[|orig|..], orig, replacement);
      }
    }
  }

  /** A rule leaves a text as it is exactly when its word does not occur there, or it replaces the
      word by itself. */
  lemma {:induction false} UnchangedExactlyWhen(s: string, orig: string, replacement: string)
    requires orig != []
    ensures ReplaceAll(s, orig, replacement) == s <==> !Contains(s, orig) || replacement == orig
    decreases |s|
  {
    LengthMoves(s, orig, replacement);
    if s != [] {
      ContainsCons(s, orig);
      if StartsWith(s, orig) {
        var rest := ReplaceAll(s[|orig|..], orig, replacement);
        assert s == orig + s[|orig|..] && (replacement + rest)[..|replacement|] == replacement;
        if replacement == orig {
          UnchangedExactlyWhen(s[|orig|..], orig, replacement);
        }
      } else {
        UnchangedExactlyWhen(s[1..], orig, replacement);
        assert ReplaceAll(s, orig, replacement)[1..] == ReplaceAll(s[1..], orig, replacement);
      }
    }
  }

  // ---------------------------------------------------------------- when a rule re-creates its word

  /** The word occurs in s, and first at position k. */
  predicate OccursFirst(s: string, word: string, k: nat) {
    && k <= |s| && OccursAt(s, word, k)
    && forall j: nat | j < k :: !OccursAt(s, word, j)
  }

  /** The replacement ends with the first k characters of the word. */
  predicate EndsInStart(word: string, replacement: string, k: nat) {
    1 <= k < |word| && k <= |replacement| && replacement[|replacement| - k..] == word[..k]
  }

  /** The first k characters of the word can stand before it without an earlier occurrence, and the
      rest of the word agrees with the replacement as far as both go. */
  predicate StartsInRest(word: string, replacement: string, k: nat) {
    && 1 <= k < |word|
    && (word[k..] <= replacement || replacement <= word[k..])
    && OccursFirst(word[..k] + word, word, k)
  }

  /** A finite test: the replacement contains the word, or ends with its start, or fits behind its
      start. */
  predicate Recreates(word: string, replacement: string) {
    || Contains(replacement, word)
    || (exists k: nat | k < |word| :: EndsInStart(word, replacement, k))
    || (exists k: nat | k < |word| :: StartsInRest(word, replacement, k))
  }

  lemma ContainsAt(s: string, word: string, i: nat)
    requires i + |word| <= |s| && s[i..i + |word|] == word
    ensures Contains(s, word)
  {
    assert s[i..][..|word|] == word;
    assert OccursAt(s, word, i);
  }

  lemma FirstOccurrence(s: string, word: string) returns (k: nat)
    requires Contains(s, word)
    ensures OccursFirst(s, word, k)
    decreases |s|
  {
    assert s[0..] == s;
    if StartsWith(s, word) {
      k := 0;
    } else {
      assert s != [];
      ContainsCons(s, word);
      var i := FirstOccurrence(s[1..], word);
      k := i + 1;
      assert s[k..] == s[1..][i..];
      forall j: nat | j < k
        ensures !OccursAt(s, word, j)
      {
        if j > 0 {
          assert s[j..] == s[1..][j - 1..];
          assert !OccursAt(s[1..], word, j - 1);
        }
      }
    }
  }

  lemma ReplaceHere(s: string, orig: string, replacement: string, tail: string)
    requires orig != [] && s == orig + tail
    ensures ReplaceAll(s, orig, replacement) == replacement + ReplaceAll(tail, orig, replacement)
  {
    assert s[|orig|..] == tail && s[..|orig|] == orig;
  }

  /** Up to the first occurrence nothing changes; behind it replacing starts anew. */
  lemma {:induction false} ReplaceAtFirst(s: string, orig: string, replacement: string, k: nat, tail: string)
    requires orig != [] && OccursFirst(s, orig, k) && s[k..] == orig + tail
    ensures ReplaceAll(s, orig, replacement) == s[..k] + (replacement + ReplaceAll(tail, orig, replacement))
    decreases k
  {
    if k == 0 {
      assert s[0..] == s;
      ReplaceHere(s, orig, replacement, tail);
    } else {
      OneLess(s, orig, k);
      ReplaceAtFirst(s[1..], orig, replacement, k - 1, tail);
      ReplaceLater(s, orig, replacement);
      TakeMore(s, k, replacement + ReplaceAll(tail, orig, replacement));
    }
  }

  lemma ReplaceLater(s: string, orig: string, replacement: string)
    requires orig != [] && s != [] && !StartsWith(s, orig)
    ensures ReplaceAll(s, orig, replacement) == [s[0]] + ReplaceAll(s[1..], orig, replacement)
  {
  }

  lemma TakeMore(s: string, k: nat, rest: string)
    requires 0 < k <= |s|
    ensures [s[0]] + (s[1..][..k - 1] + rest) == s[..k] + rest
  {
  }

  lemma OneLess(s: string, word: string, k: nat)
    requires OccursFirst(s, word, k) && k > 0
    ensures s != [] && !StartsWith(s, word) && OccursFirst(s[1..], word, k - 1) && s[1..][k - 1..] == s[k..]
  {
    assert s[0..] == s;
    assert s[1..][k - 1..] == s[k..];
    assert !OccursAt(s, word, 0);
    forall j: nat | j < k - 1
      ensures !OccursAt(s[1..], word, j)
    {
      assert s[1..][j..] == s[j + 1..];
      assert !OccursAt(s, word, j + 1);
    }
  }

  /** Too short a text has no occurrence. */
  lemma ShortIsUnchanged(s: string, orig: string, replacement: string)
    requires |s| < |orig|
    ensures ReplaceAll(s, orig, replacement) == s
  {
    assert !Contains(s, orig);
    NothingToReplace(s, orig, replacement);
  }

  // A text for each of the three ways.

  lemma ContainedRecreates(orig: string, replacement: string)
    requires orig != [] && Contains(replacement, orig)
    ensures Contains(ReplaceAll(orig, orig, replacement), orig)
  {
    WholeWord(orig, replacement);
  }

  lemma EndRecreates(orig: string, replacement: string, k: nat)
    requires EndsInStart(orig, replacement, k)
    ensures ReplaceAll(orig + orig[k..], orig, replacement) == replacement + orig[k..]
    ensures Contains(ReplaceAll(orig + orig[k..], orig, replacement), orig)
  {
    ReplaceHere(orig + orig[k..], orig, replacement, orig[k..]);
    ShortIsUnchanged(orig[k..], orig, replacement);
    EndFits(orig, replacement, k);
  }

  lemma EndFits(orig: string, replacement: string, k: nat)
    requires EndsInStart(orig, replacement, k)
    ensures Contains(replacement + orig[k..], orig)
  {
    var i := |replacement| - k;
    assert (replacement + orig[k..])[i..] == replacement[i..] + orig[k..];
    assert replacement[i..] + orig[k..] == orig;
    assert OccursAt(replacement + orig[k..], orig, i);
  }

  /** What is missing of the rest of the word behind the replacement. */
  function Missing(rest: string, replacement: string): string {
    if |replacement| < |rest| then rest[|replacement|..] else []
  }

  lemma RestRecreates(orig: string, replacement: string, k: nat)
    requires StartsInRest(orig, replacement, k)
    ensures var missing := Missing(orig[k..], replacement);
            && ReplaceAll(orig[..k] + orig + missing, orig, replacement) == orig[..k] + (replacement + missing)
            && Contains(ReplaceAll(orig[..k] + orig + missing, orig, replacement), orig)
  {
    var missing := Missing(orig[k..], replacement);
    var s, result := orig[..k] + orig + missing, orig[..k] + (replacement + missing);
    MoreBehind(orig[..k] + orig, missing, orig, k);
    assert s[k..] == orig + missing && s[..k] == orig[..k];
    ReplaceAtFirst(s, orig, replacement, k, missing);
    ShortIsUnchanged(missing, orig, replacement);
    RestFits(orig, replacement, k);
    ContainsHere(result, orig);
  }

  lemma RestFits(orig: string, replacement: string, k: nat)
    requires k < |orig| && (orig[k..] <= replacement || replacement <= orig[k..])
    ensures StartsWith(orig[..k] + (replacement + Missing(orig[k..], replacement)), orig)
  {
    var whole := replacement + Missing(orig[k..], replacement);
    assert whole[..|orig| - k] == orig[k..];
    assert orig == orig[..k] + orig[k..];
  }

  /** More text behind the first occurrence leaves it the first. */
  lemma MoreBehind(s: string, more: string, word: string, k: nat)
    requires OccursFirst(s, word, k)
    ensures OccursFirst(s + more, word, k)
  {
    forall j: nat | j <= k
      ensures OccursAt(s + more, word, j) <==> OccursAt(s, word, j)
    {
      assert (s + more)[j..] == s[j..] + more;
      StartsWithin(s[j..], more, word);
    }
  }

  lemma StartsWithin(s: string, more: string, word: string)
    requires |word| <= |s|
    ensures StartsWith(s + more, word) <==> StartsWith(s, word)
  {
    assert (s + more)[..|word|] == s[..|word|];
  }

  /** No occurrence lies before the first one. */
  lemma ReachesFirst(s: string, word: string, k: nat, i: nat, more: string)
    requires OccursFirst(s, word, k) && i < k && StartsWith(s[i..k] + more, word)
    ensures |word| > k - i
  {
    assert s[i..] == s[i..k] + s[k..];
    assert !OccursAt(s, word, i);
  }

  // And no other way.

  /** An occurrence that starts before the replaced one. */
  lemma BeforeReplaced(s: string, orig: string, replacement: string, k: nat, tail: string, i: nat)
    requires orig != [] && OccursFirst(s, orig, k) && i < k
    requires StartsWith((s[..k] + (replacement + tail))[i..], orig)
    ensures k - i < |orig| && StartsInRest(orig, replacement, k - i)
  {
    var result := s[..k] + (replacement + tail);
    var m := k - i;
    assert result[i..] == s[i..k] + (replacement + tail);
    ReachesFirst(s, orig, k, i, replacement + tail);
    assert orig[..m] == s[i..k];
    assert orig[m..] <= replacement + tail;
    EitherPrefix(orig[m..], replacement, tail);
    var t := orig[..m] + orig;
    assert t == s[i..k + |orig|] by {
      assert s[k..][..|orig|] == orig;
      assert s[i..k + |orig|] == s[i..k] + s[k..k + |orig|];
    }
    assert t[m..] == orig;
    forall j: nat | j < m
      ensures !OccursAt(t, orig, j)
    {
      assert s[i + j..] == t[j..] + s[k + |orig|..];
      assert !OccursAt(s, orig, i + j);
      StartsWithin(t[j..], s[k + |orig|..], orig);
    }
  }

  lemma EitherPrefix(a: string, b: string, c: string)
    requires a <= b + c
    ensures a <= b || b <= a
  {
    if |a| <= |b| {
      assert a == (b + c)[..|a|] == b[..|a|];
    } else {
      assert b == (b + c)[..|b|] == a[..|b|];
    }
  }

  /** One that starts in the replacement. */
  lemma InReplacement(orig: string, replacement: string, tail: string, j: nat)
    requires orig != [] && j < |replacement| && StartsWith((replacement + tail)[j..], orig)
    ensures Recreates(orig, replacement)
  {
    var k := |replacement| - j;
    assert (replacement + tail)[j..] == replacement[j..] + tail;
    if |orig| <= k {
      assert replacement[j..][..|orig|] == orig;
      ContainsAt(replacement, orig, j);
    } else {
      assert replacement[j..] == orig[..k];
      assert EndsInStart(orig, replacement, k);
    }
  }

  lemma {:induction false} RecreatedOnlyThen(s: string, orig: string, replacement: string)
    requires orig != [] && Contains(ReplaceAll(s, orig, replacement), orig)
    ensures Recreates(orig, replacement)
    decreases |s|
  {
    if !Contains(s, orig) {
      NothingToReplace(s, orig, replacement);
    } else {
      var k := FirstOccurrence(s, orig);
      var rest := s[k + |orig|..];
      assert s[k..] == orig + rest;
      ReplaceAtFirst(s, orig, replacement, k, rest);
      var tail := ReplaceAll(rest, orig, replacement);
      var i: nat :| i <= |s[..k] + (replacement + tail)| && OccursAt(s[..k] + (replacement + tail), orig, i);
      if !Recreates(orig, replacement) {
        OnlyInTail(s, orig, replacement, k, tail, i);
        RecreatedOnlyThen(rest, orig, replacement);
      }
    }
  }

  /** Where a new occurrence can begin: before the replaced one, in the replacement, or behind. */
  lemma OnlyInTail(s: string, orig: string, replacement: string, k: nat, tail: string, i: nat)
    requires orig != [] && OccursFirst(s, orig, k)
    requires i <= |s[..k] + (replacement + tail)| && OccursAt(s[..k] + (replacement + tail), orig, i)
    ensures Recreates(orig, replacement) || Contains(tail, orig)
  {
    var result := s[..k] + (replacement + tail);
    if i < k {
      BeforeReplaced(s, orig, replacement, k, tail, i);
    } else if i < k + |replacement| {
      assert result[i..] == (replacement + tail)[i - k..];
      InReplacement(orig, replacement, tail, i - k);
    } else {
      assert result[i..] == tail[i - k - |replacement|..];
      assert OccursAt(tail, orig, i - k - |replacement|);
    }
  }

  /** The word occurs in the text that is left of s. */
  predicate IsLeftIn(s: string, orig: string, replacement: string) {
    Contains(ReplaceAll(s, orig, replacement), orig)
  }

  /** One rule, any word, any replacement: the word is never left in a result exactly when the
      finite test says so. */
  lemma RemovesWordExactlyWhen(orig: string, replacement: string)
    requires orig != []
    ensures (forall s :: !IsLeftIn(s, orig, replacement)) <==> !Recreates(orig, replacement)
  {
    if Recreates(orig, replacement) {
      var s := SomeTextRecreates(orig, replacement);
      assert IsLeftIn(s, orig, replacement);
    }
    forall s | IsLeftIn(s, orig, replacement)
      ensures Recreates(orig, replacement)
    {
      RecreatedOnlyThen(s, orig, replacement);
    }
  }

  lemma SomeTextRecreates(orig: string, replacement: string) returns (s: string)
    requires orig != [] && Recreates(orig, replacement)
    ensures Contains(ReplaceAll(s, orig, replacement), orig)
  {
    if Contains(replacement, orig) {
      ContainedRecreates(orig, replacement);
      s := orig;
    } else if k: nat :| k < |orig| && EndsInStart(orig, replacement, k) {
      EndRecreates(orig, replacement, k);
      s := orig + orig[k..];
    } else {
      var k: nat :| k < |orig| && StartsInRest(orig, replacement, k);
      RestRecreates(orig, replacement, k);
      s := orig[..k] + orig + Missing(orig[k..], replacement);
    }
  }

  // ---------------------------------------------------------------- single characters, exactly

  predicate SingleCharacters(rules: seq<Rule>) {
    forall i | 0 <= i < |rules| :: |rules[i].orig| == 1
  }

  predicate IsFree(s: string, rules: seq<Rule>) {
    forall i | 0 <= i < |rules| :: !Contains(s, rules[i].orig)
  }

  lemma ContainsCharacter(s: string, c: char)
    ensures Contains(s, [c]) <==> c in s
  {
    if Contains(s, [c]) {
      var i: nat :| i <= |s| && OccursAt(s, [c], i);
      assert s[i..][0] == c;
    }
    if c in s {
      var i: nat :| i < |s| && s[i] == c;
      assert OccursAt(s, [c], i);
    }
  }

  lemma {:induction false} ReplaceSplits(s: string, t: string, orig: string, replacement: string)
    requires |orig| == 1
    ensures ReplaceAll(s + t, orig, replacement) == ReplaceAll(s, orig, replacement) + ReplaceAll(t, orig, replacement)
    decreases |s|
  {
    if s == [] {
      assert s + t == t;
    } else {
      ReplaceSplits(s[1..], t, orig, replacement);
      assert (s + t)[1..] == s[1..] + t;
      assert StartsWith(s + t, orig) <==> StartsWith(s, orig);
    }
  }

  /** Rules for single characters work on each character by itself. */
  lemma {:induction false} FoldSplits(s: string, t: string, rules: seq<Rule>)
    requires SingleCharacters(rules)
    ensures Fold(s + t, rules) == Fold(s, rules) + Fold(t, rules)
  {
    if rules == [] {
    } else {
      var before, last := rules[..|rules| - 1], rules[|rules| - 1];
      FoldSplits(s, t, before);
      ReplaceSplits(Fold(s, before), Fold(t, before), last.orig, last.replacement);
    }
  }

  lemma NothingFromNothing(rules: seq<Rule>)
    requires SingleCharacters(rules)
    ensures Fold("", rules) == ""
  {
    FoldSplits("", "", rules);
    assert "" + "" == "";
    assert |Fold("", rules)| == 0;
  }

  lemma {:induction false} CharacterHasOrigin(s: string, rules: seq<Rule>, c: char) returns (k: nat)
    requires SingleCharacters(rules) && c in Fold(s, rules) && s != []
    ensures k < |s| && c in Fold([s[k]], rules)
    decreases |s|
  {
    FoldSplits([s[0]], s[1..], rules);
    assert [s[0]] + s[1..] == s;
    if c in Fold([s[0]], rules) {
      k := 0;
    } else {
      if s[1..] == [] {
        NothingFromNothing(rules);
      }
      k := CharacterHasOrigin(s[1..], rules, c);
      k := k + 1;
    }
  }

  /** With rules for single characters, no word is left in any text exactly when none is left in any
      of the words themselves. */
  lemma SingleCharactersExactly(rules: seq<Rule>)
    requires SingleCharacters(rules)
    ensures (forall s :: IsFree(Fold(s, rules), rules)) <==>
            (forall j | 0 <= j < |rules| :: IsFree(Fold(rules[j].orig, rules), rules))
  {
    if forall j | 0 <= j < |rules| :: IsFree(Fold(rules[j].orig, rules), rules) {
      forall s, i | 0 <= i < |rules|
        ensures !Contains(Fold(s, rules), rules[i].orig)
      {
        if Contains(Fold(s, rules), rules[i].orig) {
          LeftInSomeWord(s, rules, i);
        }
      }
    }
  }

  lemma LeftInSomeWord(s: string, rules: seq<Rule>, i: nat)
    requires SingleCharacters(rules) && i < |rules| && Contains(Fold(s, rules), rules[i].orig)
    ensures exists j :: 0 <= j < |rules| && !IsFree(Fold(rules[j].orig, rules), rules)
  {
    var c := rules[i].orig[0];
    assert rules[i].orig == [c];
    ContainsCharacter(Fold(s, rules), c);
    NothingFromNothing(rules);
    var k := CharacterHasOrigin(s, rules, c);
    ContainsCharacter(Fold([s[k]], rules), c);
    if forall j | 0 <= j < |rules| :: rules[j].orig != [s[k]] {
      forall j | 0 <= j < |rules|
        ensures !Contains([s[k]], rules[j].orig)
      {
        ContainsCharacter([s[k]], rules[j].orig[0]);
        assert rules[j].orig == [rules[j].orig[0]];
      }
      NothingToFold([s[k]], rules);
    }
  }

  /** For one such rule: the word is never left exactly when the replacement does not contain it. */
  lemma OneCharacterExactly(rule: Rule)
    requires |rule.orig| == 1
    ensures (forall s :: !IsLeftIn(s, rule.orig, rule.replacement)) <==> !Contains(rule.replacement, rule.orig)
  {
    RemovesWordExactlyWhen(rule.orig, rule.replacement);
  }

  // ---------------------------------------------------------------- outside the conditions

  /** An empty replacement can bring the removed word back: "aabb" without "ab" is "ab". */
  lemma EmptyReplacementRecreates()
    ensures ReplaceAll("aabb", "ab", "") == "ab"
    ensures Contains(ReplaceAll("aabb", "ab", ""), "ab")
    ensures Recreates("ab", "")
  {
    StartOfAb();
    assert StartsInRest("ab", "", 1);
    RestRecreates("ab", "", 1);
    assert "ab"[..1] + "ab" + Missing("b", "") == "aabb" && "ab"[..1] + ("" + Missing("b", "")) == "ab";
  }

  /** So can one that shares a character with the word: "aab" with "ab" made "b" is "ab". */
  lemma SharedCharacterRecreates()
    ensures ReplaceAll("aab", "ab", "b") == "ab"
    ensures Contains(ReplaceAll("aab", "ab", "b"), "ab")
    ensures Recreates("ab", "b")
  {
    StartOfAb();
    assert StartsInRest("ab", "b", 1);
    RestRecreates("ab", "b", 1);
    assert "ab"[..1] + "ab" + Missing("b", "b") == "aab" && "ab"[..1] + ("b" + Missing("b", "b")) == "ab";
  }

  lemma StartOfAb()
    ensures "ab"[1..] == "b" && OccursFirst("ab"[..1] + "ab", "ab", 1)
  {
    var s := "ab"[..1] + "ab";
    assert s == "aab" && s[1..] == "ab" && s[0..][1] == 'a' && "ab"[1] == 'b';
  }
}
