/** Restoring a wallet from a BIP-39 mnemonic on the device: fetch the
    wordlist, pick the word count, enter the words one by one (with delete and
    cancel), join them, derive the seed, choose a password (retrying on a
    mismatch), store the seed, optionally confirm the time and set the U2F
    counter, mark the device initialized and unlock it.

    Every user interaction is a scripted input consumed in order; every
    foreign call is a field of `Platform`. The workflow also returns the trace
    of the screens it showed and the foreign calls it made. */
module RestoreFromMnemonic {
  import opened Outcomes

  const MAX_WORDS: nat := 24
  /** WORKFLOW_TRINARY_INPUT_MAX_WORD_LENGTH; the proofs only need it positive. */
  const MAX_WORD_LENGTH: nat := 8
  const BIP39_WORDLIST_LEN: nat := 2048
  /** Size of the `mnemonic` buffer, terminator included. */
  const MNEMONIC_BUFFER_LEN: nat := (MAX_WORD_LENGTH + 1) * MAX_WORDS

  const UNREACHABLE_CHOICE := "restore_from_mnemonic: unreachable"
  const UNLOCK_FAILED := "workflow_restore_from_mnemonic: unlock failed"

  type Word = string
  type Password = string
  newtype Byte = b: int | 0 <= b < 256
  type Seed = seq<Byte>

  /** trinary_choice_t; ChoiceOther is any value outside the three buttons. */
  datatype TrinaryChoice = ChoiceLeft | ChoiceMiddle | ChoiceRight | ChoiceOther(code: int)

  /** What the word-entry screen returns: the entered word, DELETE or CANCEL. */
  datatype WordInput = Accept(word: Word) | Delete | Cancel

  datatype StatusMessage = EnterWords(count: nat) | WordsInvalid | WordsValid | RestoreFailed

  /** Screens shown and foreign calls made, in order. */
  datatype Event =
    | WordCountPrompt
    | Status(message: StatusMessage, success: bool)
    | WordPrompt(index: nat, preset: Option<Word>)
    | DeriveSeed(mnemonic: string)
    | PasswordPrompt
    | TryAgainPrompt
    | StoreSeed(seed: Seed, password: Password)
    | ConfirmTime(timestamp: int, timezoneOffset: int)
    | SetU2FCounter(timestamp: int)
    | SetInitialized
    | Unlock(password: Password)
    | UnlockBip39

  /** The foreign calls, as functions that may fail. */
  datatype Platform = Platform(
    bip39Word: nat -> Option<Word>,                 // keystore_get_bip39_word
    mnemonicToSeed: string -> Option<Seed>,         // keystore_bip39_mnemonic_to_seed
    encryptAndStoreSeed: (Seed, Password) -> bool,  // keystore_encrypt_and_store_seed
    u2fCounterSet: int -> bool,                     // securechip_u2f_counter_set
    setInitialized: bool,                           // memory_set_initialized
    unlock: Password -> bool)                       // keystore_unlock(...) == KEYSTORE_OK

  /** The user's answers, one stream per kind of interaction. `confirmations`
      answers the yes/no screens ("Try again?" and the time confirmation) in
      the order they are shown; `passwords` holds the outcome of each
      password_set call (None: the two entries did not match). */
  datatype UserScript = UserScript(
    wordCount: TrinaryChoice,
    wordInputs: seq<WordInput>,
    passwords: seq<Option<Password>>,
    confirmations: seq<bool>)

  datatype RestoreRequest = RestoreRequest(timestamp: int, timezoneOffset: int)

  datatype EntryRun = EntryRun(verdict: Verdict, words: seq<Word>, trace: seq<Event>)
  datatype MnemonicRun = MnemonicRun(verdict: Verdict, text: string, trace: seq<Event>)
  datatype PasswordRun = PasswordRun(verdict: Verdict, password: Password, confirmationsUsed: nat, trace: seq<Event>)
  datatype RestoreRun = RestoreRun(verdict: Verdict, trace: seq<Event>)

  // ---------------------------------------------------------------------
  // Word count

  /** _pick_number_of_words: the three buttons give 12, 18 and 24; any
      other value is the unreachable default branch, which aborts (None). */
  function PickNumberOfWords(choice: TrinaryChoice): (n: Option<nat>)
    ensures n.Some? <==> !choice.ChoiceOther?
    ensures n.Some? ==> n.value in {12, 18, 24} && n.value <= MAX_WORDS
    ensures choice == ChoiceLeft ==> n == Some(12)
    ensures choice == ChoiceMiddle ==> n == Some(18)
    ensures choice == ChoiceRight ==> n == Some(24)
  {
    match choice
    case ChoiceLeft => Some(12)
    case ChoiceMiddle => Some(18)
    case ChoiceRight => Some(24)
    case ChoiceOther(_) => None
  }

  // ---------------------------------------------------------------------
  // Wordlist

  predicate WordlistAvailable(bip39Word: nat -> Option<Word>) {
    forall i :: 0 <= i < BIP39_WORDLIST_LEN ==> bip39Word(i).Some?
  }

  /** _cleanup_wordlist: free and NULL every slot. */
  method CleanupWordlist(wordlist: array<Option<Word>>)
    requires wordlist.Length == BIP39_WORDLIST_LEN
    modifies wordlist
    ensures forall i :: 0 <= i < wordlist.Length ==> wordlist[i] == None
  {
    for i := 0 to BIP39_WORDLIST_LEN
      invariant forall j :: 0 <= j < i ==> wordlist[j] == None
    {
      if wordlist[i] != None {
        wordlist[i] := None;
      }
    }
  }

  // ---------------------------------------------------------------------
  // Word entry

  /** The preset passed to the word-entry screen: the slot's word, or NULL
      when the slot is empty. */
  function Preset(w: Word): Option<Word> {
    if |w| > 0 then Some(w) else None
  }

  function EmptySlots(): (slots: seq<Word>)
    ensures |slots| == MAX_WORDS
  {
    seq(MAX_WORDS, _ => "")
  }

  /** The `while (word_idx < num_words)` loop, from index `idx` with the slots
      `words`: each round shows the prompt for `idx` with the slot's preset
      and consumes one input. */
  function Entry(n: nat, idx: nat, words: seq<Word>, inputs: seq<WordInput>): (run: EntryRun)
    requires idx <= n <= |words|
    ensures |run.words| == |words|
    decreases |inputs|
  {
    if idx == n then EntryRun(Returned(true), words, [])
    else
      var prompt := WordPrompt(idx, Preset(words[idx]));
      if inputs == [] then EntryRun(Blocked, words, [prompt])
      else
        match inputs[0]
        case Cancel => EntryRun(Returned(false), words, [prompt])
        case Delete =>
          var rest := Entry(n, if idx > 0 then idx - 1 else 0, words, inputs[1..]);
          EntryRun(rest.verdict, rest.words, [prompt] + rest.trace)
        case Accept(w) =>
          var rest := Entry(n, idx + 1, words[idx := w], inputs[1..]);
          EntryRun(rest.verdict, rest.words, [prompt] + rest.trace)
  }

  /** Every prompt is for an index below the word count (so every slot the
      loop reads or writes is in bounds), the loop never halts, the slots
      keep their number, and slots from `n` on are never touched. */
  lemma {:induction false} EntryStaysInBounds(n: nat, idx: nat, words: seq<Word>, inputs: seq<WordInput>)
    requires idx <= n <= |words|
    ensures !Entry(n, idx, words, inputs).verdict.Halted?
    ensures forall i :: n <= i < |words| ==> Entry(n, idx, words, inputs).words[i] == words[i]
    ensures forall k :: 0 <= k < |Entry(n, idx, words, inputs).trace| ==>
              Entry(n, idx, words, inputs).trace[k].WordPrompt? && Entry(n, idx, words, inputs).trace[k].index < n
    decreases |inputs|
  {
    if idx < n && inputs != [] {
      match inputs[0]
      case Cancel =>
      case Delete => EntryStaysInBounds(n, if idx > 0 then idx - 1 else 0, words, inputs[1..]);
      case Accept(w) => EntryStaysInBounds(n, idx + 1, words[idx := w], inputs[1..]);
    }
  }

  /** Every word left in a slot was either there before or entered by the
      user; and when the loop completes, every slot from `idx` to `n` holds a
      word the user entered. */
  lemma {:induction false} EnteredWordsWereAccepted(n: nat, idx: nat, words: seq<Word>, inputs: seq<WordInput>)
    requires idx <= n <= |words|
    ensures var run := Entry(n, idx, words, inputs);
      && |run.words| == |words|
      && (forall i :: 0 <= i < |words| ==> run.words[i] == words[i] || Accept(run.words[i]) in inputs)
      && (run.verdict == Returned(true) ==> forall i :: idx <= i < n ==> Accept(run.words[i]) in inputs)
    decreases |inputs|
  {
    var run := Entry(n, idx, words, inputs);
    if idx < n && inputs != [] {
      match inputs[0]
      case Cancel =>
      case Delete =>
        var j := if idx > 0 then idx - 1 else 0;
        EnteredWordsWereAccepted(n, j, words, inputs[1..]);
        forall i | 0 <= i < |words| && run.words[i] != words[i]
          ensures Accept(run.words[i]) in inputs
        {
          assert Accept(run.words[i]) in inputs[1..];
        }
        if run.verdict == Returned(true) {
          forall i | idx <= i < n ensures Accept(run.words[i]) in inputs {
            assert Accept(run.words[i]) in inputs[1..];
          }
        }
      case Accept(w) =>
        var updated := words[idx := w];
        EnteredWordsWereAccepted(n, idx + 1, updated, inputs[1..]);
        assert inputs == [Accept(w)] + inputs[1..];
        forall i | 0 <= i < |words| && run.words[i] != words[i]
          ensures Accept(run.words[i]) in inputs
        {
          if run.words[i] != updated[i] {
            assert Accept(run.words[i]) in inputs[1..];
          } else {
            assert i == idx;
          }
        }
        if run.verdict == Returned(true) {
          forall i | idx <= i < n ensures Accept(run.words[i]) in inputs {
            if i > idx {
              assert Accept(run.words[i]) in inputs[1..];
            } else if run.words[i] != updated[i] {
              assert Accept(run.words[i]) in inputs[1..];
            }
          }
        }
    }
  }

  /** DELETE on the first word changes nothing: the same prompt comes back. */
  lemma DeleteAtFirstWordIsNoOp(n: nat, words: seq<Word>, rest: seq<WordInput>)
    requires 0 < n <= |words|
    ensures var run := Entry(n, 0, words, [Delete] + rest);
            var base := Entry(n, 0, words, rest);
      && run.verdict == base.verdict && run.words == base.words
      && run.trace == [WordPrompt(0, Preset(words[0]))] + base.trace
  {
    assert ([Delete] + rest)[1..] == rest;
  }

  /** DELETE at p > 0 followed by re-entering the word already in slot p-1
      ends exactly as if neither input had been given. */
  lemma DeleteThenReenterIsNoOp(n: nat, p: nat, words: seq<Word>, rest: seq<WordInput>)
    requires 0 < p < n <= |words|
    ensures var run := Entry(n, p, words, [Delete, Accept(words[p - 1])] + rest);
            var base := Entry(n, p, words, rest);
      && run.verdict == base.verdict && run.words == base.words
      && run.trace == [WordPrompt(p, Preset(words[p])), WordPrompt(p - 1, Preset(words[p - 1]))] + base.trace
  {
    var inputs := [Delete, Accept(words[p - 1])] + rest;
    var again := [Accept(words[p - 1])] + rest;
    assert inputs[1..] == again;
    assert again[1..] == rest;
    assert words[p - 1 := words[p - 1]] == words;
    var base := Entry(n, p, words, rest);
    var mid := Entry(n, p - 1, words, again);
    assert mid == EntryRun(base.verdict, base.words, [WordPrompt(p - 1, Preset(words[p - 1]))] + base.trace);
    assert Entry(n, p, words, inputs) == EntryRun(mid.verdict, mid.words, [WordPrompt(p, Preset(words[p]))] + mid.trace);
  }

  /** DELETE does not clear a slot: entering `x` at p and then deleting
      brings back the prompt for p with `x` as its preset. */
  lemma DeleteRestoresPreset(n: nat, p: nat, words: seq<Word>, x: Word, rest: seq<WordInput>)
    requires p + 1 < n <= |words|
    ensures var run := Entry(n, p, words, [Accept(x), Delete] + rest);
      |run.trace| >= 3 && run.trace[2] == WordPrompt(p, Preset(x))
  {
    var inputs := [Accept(x), Delete] + rest;
    var updated := words[p := x];
    assert inputs[1..] == [Delete] + rest;
    assert inputs[1..][1..] == rest;
    var back := Entry(n, p, updated, rest);
    var ahead := Entry(n, p + 1, updated, [Delete] + rest);
    assert ahead.trace == [WordPrompt(p + 1, Preset(updated[p + 1]))] + back.trace;
    assert Entry(n, p, words, inputs).trace == [WordPrompt(p, Preset(words[p]))] + ahead.trace;
    assert back.trace[0] == WordPrompt(p, Preset(x));
  }

  // ---------------------------------------------------------------------
  // Joining the words

  /** strncat(..., MAX_WORD_LENGTH): at most MAX_WORD_LENGTH characters of the word. */
  function Truncate(w: Word): (t: Word)
    ensures |t| <= MAX_WORD_LENGTH && t <= w
    ensures |w| <= MAX_WORD_LENGTH ==> t == w
  {
    if |w| <= MAX_WORD_LENGTH then w else w[..MAX_WORD_LENGTH]
  }

  function Truncated(ws: seq<Word>): (ts: seq<Word>)
    ensures |ts| == |ws|
  {
    seq(|ws|, i requires 0 <= i < |ws| => Truncate(ws[i]))
  }

  predicate SpaceFree(w: Word) {
    ' ' !in w
  }

  /** The join loop: truncated words with one space between consecutive words. */
  function Join(ws: seq<Word>): string
  {
    if |ws| == 0 then ""
    else if |ws| == 1 then Truncate(ws[0])
    else Join(ws[..|ws| - 1]) + " " + Truncate(ws[|ws| - 1])
  }

  /** Position of the last space. */
  function LastSpace(s: string): (k: nat)
    requires ' ' in s
    ensures k < |s| && s[k] == ' ' && ' ' !in s[k + 1..]
  {
    if s[|s| - 1] == ' ' then |s| - 1
    else
      assert ' ' in s[..|s| - 1] by {
        var i :| 0 <= i < |s| && s[i] == ' ';
        assert s[..|s| - 1][i] == ' ';
      }
      var k := LastSpace(s[..|s| - 1]);
      assert s[k + 1..] == s[..|s| - 1][k + 1..] + [s[|s| - 1]];
      k
  }

  /** Splitting a string at its spaces: the inverse of Join. */
  function Split(s: string): (ws: seq<Word>)
    decreases |s|
  {
    if ' ' !in s then [s]
    else
      var k := LastSpace(s);
      Split(s[..k]) + [s[k + 1..]]
  }

  lemma LastSpaceOfJoin(a: string, b: string)
    requires SpaceFree(b)
    ensures LastSpace(a + " " + b) == |a|
  {
    var s := a + " " + b;
    var k := LastSpace(s);
    assert s[|a|] == ' ';
    if k < |a| {
      assert false;
    } else if k > |a| {
      assert false;
    }
  }

  lemma TruncateSpaceFree(w: Word)
    requires SpaceFree(w)
    ensures SpaceFree(Truncate(w))
  {
    forall i | 0 <= i < |Truncate(w)| ensures Truncate(w)[i] != ' ' {
      assert Truncate(w)[i] == w[i];
    }
  }

  /** Splitting the joined mnemonic at its spaces gives back the (truncated)
      words, as long as no word holds a space. */
  lemma {:induction false} SplitJoin(ws: seq<Word>)
    requires |ws| > 0
    requires forall i :: 0 <= i < |ws| ==> SpaceFree(ws[i])
    ensures Split(Join(ws)) == Truncated(ws)
    decreases |ws|
  {
    var last := |ws| - 1;
    TruncateSpaceFree(ws[last]);
    if |ws| == 1 {
      assert Split(Join(ws)) == [Truncate(ws[0])];
    } else {
      var front := ws[..last];
      var s := Join(front) + " " + Truncate(ws[last]);
      LastSpaceOfJoin(Join(front), Truncate(ws[last]));
      assert s[..|Join(front)|] == Join(front);
      assert s[|Join(front)| + 1..] == Truncate(ws[last]);
      SplitJoin(front);
      assert Truncated(ws) == Truncated(front) + [Truncate(ws[last])];
    }
  }

  /** The joined mnemonic holds exactly |ws| - 1 spaces. */
  lemma {:induction false} JoinSpaceCount(ws: seq<Word>)
    requires |ws| > 0
    requires forall i :: 0 <= i < |ws| ==> SpaceFree(ws[i])
    ensures multiset(Join(ws))[' '] == |ws| - 1
    decreases |ws|
  {
    var last := |ws| - 1;
    TruncateSpaceFree(ws[last]);
    assert multiset(Truncate(ws[last]))[' '] == 0;
    if |ws| > 1 {
      JoinSpaceCount(ws[..last]);
      assert multiset(Join(ws)) == multiset(Join(ws[..last])) + multiset(" ") + multiset(Truncate(ws[last]));
    }
  }

  /** With non-empty, space-free words, the mnemonic starts and ends with a
      word character: no leading or trailing space. */
  lemma {:induction false} JoinHasNoOuterSpace(ws: seq<Word>)
    requires |ws| > 0
    requires forall i :: 0 <= i < |ws| ==> SpaceFree(ws[i]) && |ws[i]| > 0
    ensures var s := Join(ws); |s| > 0 && s[0] != ' ' && s[|s| - 1] != ' '
    decreases |ws|
  {
    var last := |ws| - 1;
    TruncateSpaceFree(ws[last]);
    var t := Truncate(ws[last]);
    assert |t| > 0 && t[|t| - 1] in t;
    if |ws| > 1 {
      JoinHasNoOuterSpace(ws[..last]);
    } else {
      assert t[0] in t;
    }
  }

  /** The mnemonic of at most MAX_WORDS words fits the buffer with its terminator. */
  lemma {:induction false} JoinLength(ws: seq<Word>)
    ensures |ws| > 0 ==> |Join(ws)| <= (MAX_WORD_LENGTH + 1) * |ws| - 1
    ensures |ws| <= MAX_WORDS ==> |Join(ws)| < MNEMONIC_BUFFER_LEN
    decreases |ws|
  {
    if |ws| > 1 {
      JoinLength(ws[..|ws| - 1]);
    }
  }

  // ---------------------------------------------------------------------
  // _get_mnemonic

  /** What _get_mnemonic does, as a function of its inputs. */
  function MnemonicEntry(bip39Word: nat -> Option<Word>, choice: TrinaryChoice, inputs: seq<WordInput>): (run: MnemonicRun)
  {
    if !WordlistAvailable(bip39Word) then MnemonicRun(Returned(false), "", [])
    else
      match PickNumberOfWords(choice)
      case None => MnemonicRun(Halted(UNREACHABLE_CHOICE), "", [WordCountPrompt])
      case Some(n) =>
        var entry := Entry(n, 0, EmptySlots(), inputs);
        var trace := [WordCountPrompt, Status(EnterWords(n), true)] + entry.trace;
        if entry.verdict == Returned(true) then MnemonicRun(Returned(true), Join(entry.words[..n]), trace)
        else MnemonicRun(entry.verdict, "", trace)
  }

  /** When the user entered only non-empty words without spaces, a
      successful _get_mnemonic yields 12, 18 or 24 words separated by single
      spaces, with no outer space, fitting the buffer; otherwise nothing is
      written to the output. A missing wordlist entry stops it before the
      word count is asked. */
  lemma MnemonicEntryShape(bip39Word: nat -> Option<Word>, choice: TrinaryChoice, inputs: seq<WordInput>)
    ensures var run := MnemonicEntry(bip39Word, choice, inputs);
      && (run.verdict != Returned(true) ==> run.text == "")
      && (!WordlistAvailable(bip39Word) ==> run.verdict == Returned(false) && run.trace == [])
      && (run.verdict == Returned(true) ==>
            && PickNumberOfWords(choice).Some?
            && |run.text| < MNEMONIC_BUFFER_LEN
            && ((forall j :: 0 <= j < |inputs| && inputs[j].Accept? ==>
                   SpaceFree(inputs[j].word) && |inputs[j].word| > 0) ==>
                  && |Split(run.text)| == PickNumberOfWords(choice).value
                  && multiset(run.text)[' '] == PickNumberOfWords(choice).value - 1
                  && run.text[0] != ' ' && run.text[|run.text| - 1] != ' '))
  {
    var run := MnemonicEntry(bip39Word, choice, inputs);
    if run.verdict == Returned(true) {
      var n := PickNumberOfWords(choice).value;
      var entry := Entry(n, 0, EmptySlots(), inputs);
      EnteredWordsWereAccepted(n, 0, EmptySlots(), inputs);
      var ws := entry.words[..n];
      assert run.text == Join(ws);
      JoinLength(ws);
      if forall j :: 0 <= j < |inputs| && inputs[j].Accept? ==> SpaceFree(inputs[j].word) && |inputs[j].word| > 0 {
        forall i | 0 <= i < n ensures SpaceFree(ws[i]) && |ws[i]| > 0 {
          assert Accept(ws[i]) in inputs;
          var j :| 0 <= j < |inputs| && inputs[j] == Accept(ws[i]);
        }
        SplitJoin(ws);
        JoinSpaceCount(ws);
        JoinHasNoOuterSpace(ws);
      }
    }
  }

  /** One round of the word-entry loop, seen from input k after the
      prompts `shown`: CANCEL ends it, DELETE and a word continue it from
      the previous or the next index with the prompt added to `shown`. */
  lemma EntryAt(n: nat, idx: nat, words: seq<Word>, inputs: seq<WordInput>, k: nat, shown: seq<Event>)
    requires idx < n <= |words| && k < |inputs|
    ensures inputs[k] == Cancel ==>
              Entry(n, idx, words, inputs[k..]) == EntryRun(Returned(false), words, [WordPrompt(idx, Preset(words[idx]))])
    ensures inputs[k] == Delete ==>
              && Entry(n, if idx > 0 then idx - 1 else 0, words, inputs[k + 1..]).verdict == Entry(n, idx, words, inputs[k..]).verdict
              && Entry(n, if idx > 0 then idx - 1 else 0, words, inputs[k + 1..]).words == Entry(n, idx, words, inputs[k..]).words
              && (shown + [WordPrompt(idx, Preset(words[idx]))]) + Entry(n, if idx > 0 then idx - 1 else 0, words, inputs[k + 1..]).trace
                 == shown + Entry(n, idx, words, inputs[k..]).trace
    ensures inputs[k].Accept? ==>
              && Entry(n, idx + 1, words[idx := inputs[k].word], inputs[k + 1..]).verdict == Entry(n, idx, words, inputs[k..]).verdict
              && Entry(n, idx + 1, words[idx := inputs[k].word], inputs[k + 1..]).words == Entry(n, idx, words, inputs[k..]).words
              && (shown + [WordPrompt(idx, Preset(words[idx]))]) + Entry(n, idx + 1, words[idx := inputs[k].word], inputs[k + 1..]).trace
                 == shown + Entry(n, idx, words, inputs[k..]).trace
  {
    assert inputs[k..][1..] == inputs[k + 1..];
    var prompt := WordPrompt(idx, Preset(words[idx]));
    if inputs[k] == Delete {
      var rest := Entry(n, if idx > 0 then idx - 1 else 0, words, inputs[k + 1..]);
      assert Entry(n, idx, words, inputs[k..]).trace == [prompt] + rest.trace;
      assert (shown + [prompt]) + rest.trace == shown + ([prompt] + rest.trace);
    } else if inputs[k].Accept? {
      var rest := Entry(n, idx + 1, words[idx := inputs[k].word], inputs[k + 1..]);
      assert Entry(n, idx, words, inputs[k..]).trace == [prompt] + rest.trace;
      assert (shown + [prompt]) + rest.trace == shown + ([prompt] + rest.trace);
    }
  }

  /** The word-entry loop of _get_mnemonic, in place on the `words` buffer. */
  method EnterMnemonicWords(words: array<Word>, n: nat, inputs: seq<WordInput>) returns (verdict: Verdict, prompts: seq<Event>)
    requires n <= words.Length
    modifies words
    ensures EntryRun(verdict, words[..], prompts) == Entry(n, 0, old(words[..]), inputs)
  {
    ghost var slots := words[..];
    ghost var whole := Entry(n, 0, slots, inputs);
    var idx, k := 0, 0;
    prompts := [];
    while idx < n
      invariant 0 <= idx <= n && 0 <= k <= |inputs|
      invariant words[..] == slots
      invariant Entry(n, idx, slots, inputs[k..]).verdict == whole.verdict
      invariant Entry(n, idx, slots, inputs[k..]).words == whole.words
      invariant prompts + Entry(n, idx, slots, inputs[k..]).trace == whole.trace
      decreases |inputs| - k
    {
      var prompt := WordPrompt(idx, Preset(words[idx]));
      if k == |inputs| {
        return Blocked, prompts + [prompt];
      }
      EntryAt(n, idx, slots, inputs, k, prompts);
      match inputs[k] {
        case Cancel =>
          return Returned(false), prompts + [prompt];
        case Delete =>
          idx := if idx > 0 then idx - 1 else 0;
        case Accept(w) =>
          words[idx] := w;
          slots := slots[idx := w];
          idx := idx + 1;
      }
      prompts := prompts + [prompt];
      k := k + 1;
    }
    return Returned(true), prompts;
  }

  /** The join loop of _get_mnemonic: strcat a space before every word but
      the first, strncat the word. */
  method JoinWords(words: array<Word>, n: nat) returns (mnemonic: string)
    requires n <= words.Length
    ensures mnemonic == Join(words[..n])
  {
    mnemonic := "";
    for j := 0 to n
      invariant mnemonic == Join(words[..j])
    {
      if j != 0 {
        mnemonic := mnemonic + " ";
      }
      assert words[..j + 1][..j] == words[..j];
      mnemonic := mnemonic + Truncate(words[j]);
    }
  }

  /** The wordlist loop of _get_mnemonic: fetch every BIP-39 word into a
      fresh buffer; on the first missing entry, release the buffer and fail. */
  method LoadWordlist(bip39Word: nat -> Option<Word>) returns (loaded: bool, wordlist: array<Option<Word>>)
    ensures fresh(wordlist) && wordlist.Length == BIP39_WORDLIST_LEN
    ensures loaded <==> WordlistAvailable(bip39Word)
    ensures loaded ==> forall i :: 0 <= i < wordlist.Length ==> wordlist[i] == bip39Word(i)
    ensures !loaded ==> forall i :: 0 <= i < wordlist.Length ==> wordlist[i] == None
  {
    wordlist := new Option<Word>[BIP39_WORDLIST_LEN](_ => None);
    for i := 0 to BIP39_WORDLIST_LEN
      invariant forall j :: 0 <= j < i ==> bip39Word(j).Some? && wordlist[j] == bip39Word(j)
    {
      var entry := bip39Word(i);
      if entry.None? {
        CleanupWordlist(wordlist);
        return false, wordlist;
      }
      wordlist[i] := entry;
    }
    return true, wordlist;
  }

  /** _get_mnemonic. The wordlist buffer is returned only so that the
      postcondition can say it was released: on every return (but not on an
      abort, and not while still waiting for the user) all its slots are NULL. */
  method GetMnemonic(bip39Word: nat -> Option<Word>, choice: TrinaryChoice, inputs: seq<WordInput>)
    returns (verdict: Verdict, mnemonic: string, trace: seq<Event>, wordlist: array<Option<Word>>)
    ensures MnemonicRun(verdict, mnemonic, trace) == MnemonicEntry(bip39Word, choice, inputs)
    ensures wordlist.Length == BIP39_WORDLIST_LEN
    ensures verdict.Returned? ==> forall i :: 0 <= i < wordlist.Length ==> wordlist[i] == None
  {
    var loaded;
    loaded, wordlist := LoadWordlist(bip39Word);
    mnemonic, trace := "", [];
    if !loaded {
      return Returned(false), mnemonic, trace, wordlist;
    }

    trace := [WordCountPrompt];
    var count := PickNumberOfWords(choice);
    if count.None? {
      return Halted(UNREACHABLE_CHOICE), mnemonic, trace, wordlist;
    }
    var n := count.value;
    trace := trace + [Status(EnterWords(n), true)];

    var words := new Word[MAX_WORDS](_ => "");
    assert words[..] == EmptySlots();
    var entered, prompts := EnterMnemonicWords(words, n, inputs);
    trace := trace + prompts;
    if entered != Returned(true) {
      if entered.Returned? {
        CleanupWordlist(wordlist);
      }
      return entered, mnemonic, trace, wordlist;
    }
    mnemonic := JoinWords(words, n);
    CleanupWordlist(wordlist);
    return Returned(true), mnemonic, trace, wordlist;
  }

  // ---------------------------------------------------------------------
  // Password loop

  /** The `while (true)` password loop: call password_set; on a mismatch
      ask "Try again?", stop on no, repeat on yes. */
  function PasswordRetry(entries: seq<Option<Password>>, confirmations: seq<bool>): (run: PasswordRun)
    ensures run.confirmationsUsed <= |confirmations|
    decreases |entries|
  {
    if entries == [] then PasswordRun(Blocked, "", 0, [PasswordPrompt])
    else if entries[0].Some? then PasswordRun(Returned(true), entries[0].value, 0, [PasswordPrompt])
    else if confirmations == [] then PasswordRun(Blocked, "", 0, [PasswordPrompt, TryAgainPrompt])
    else if !confirmations[0] then PasswordRun(Returned(false), "", 1, [PasswordPrompt, TryAgainPrompt])
    else
      var rest := PasswordRetry(entries[1..], confirmations[1..]);
      PasswordRun(rest.verdict, rest.password, rest.confirmationsUsed + 1, [PasswordPrompt, TryAgainPrompt] + rest.trace)
  }

  /** The loop has no retry limit and never halts. It sets password p
      exactly when, after c confirmed retries of failed attempts, attempt c
      produced p; it gives up exactly when the user declined the retry after
      attempt c - 1. Its trace only holds password and "Try again?" screens. */
  lemma {:induction false} PasswordRetryOutcome(entries: seq<Option<Password>>, confirmations: seq<bool>)
    ensures var run := PasswordRetry(entries, confirmations);
            var c := run.confirmationsUsed;
      && !run.verdict.Halted?
      && (forall k :: 0 <= k < |run.trace| ==> run.trace[k] == PasswordPrompt || run.trace[k] == TryAgainPrompt)
      && (run.verdict == Returned(true) <==>
            c < |entries| && entries[c].Some? &&
            forall j :: 0 <= j < c ==> entries[j].None? && confirmations[j])
      && (run.verdict == Returned(true) ==> entries[c] == Some(run.password))
      && (run.verdict == Returned(false) <==>
            0 < c <= |entries| && entries[c - 1].None? && !confirmations[c - 1] &&
            forall j :: 0 <= j < c - 1 ==> entries[j].None? && confirmations[j])
    decreases |entries|
  {
    var run := PasswordRetry(entries, confirmations);
    if entries != [] && entries[0].None? && confirmations != [] && confirmations[0] {
      var rest := PasswordRetry(entries[1..], confirmations[1..]);
      PasswordRetryOutcome(entries[1..], confirmations[1..]);
      var c := run.confirmationsUsed;
      assert c == rest.confirmationsUsed + 1;
      if run.verdict == Returned(true) {
        assert entries[c] == entries[1..][c - 1];
      }
      if c < |entries| && entries[c].Some? && forall j :: 0 <= j < c ==> entries[j].None? && confirmations[j] {
        assert forall j :: 0 <= j < c - 1 ==> entries[1..][j] == entries[j + 1] && confirmations[1..][j] == confirmations[j + 1];
      }
      if 0 < c <= |entries| && entries[c - 1].None? && !confirmations[c - 1] &&
         forall j :: 0 <= j < c - 1 ==> entries[j].None? && confirmations[j] {
        if c == 1 {
          assert false;
        }
        assert forall j :: 0 <= j < c - 2 ==> entries[1..][j] == entries[j + 1] && confirmations[1..][j] == confirmations[j + 1];
      }
    }
  }

  /** One round of the password loop, seen from attempt k after the
      screens `shown`: a set password or a declined retry ends it, a
      confirmed retry continues it from attempt k + 1. */
  lemma PasswordRetryAt(entries: seq<Option<Password>>, confirmations: seq<bool>, k: nat, shown: seq<Event>)
    requires k <= |entries| && k <= |confirmations|
    ensures k == |entries| ==> PasswordRetry(entries[k..], confirmations[k..]) == PasswordRun(Blocked, "", 0, [PasswordPrompt])
    ensures k < |entries| && entries[k].Some? ==>
              PasswordRetry(entries[k..], confirmations[k..]) == PasswordRun(Returned(true), entries[k].value, 0, [PasswordPrompt])
    ensures k < |entries| && entries[k].None? && k == |confirmations| ==>
              PasswordRetry(entries[k..], confirmations[k..]) == PasswordRun(Blocked, "", 0, [PasswordPrompt, TryAgainPrompt])
    ensures k < |entries| && entries[k].None? && k < |confirmations| && !confirmations[k] ==>
              PasswordRetry(entries[k..], confirmations[k..]) == PasswordRun(Returned(false), "", 1, [PasswordPrompt, TryAgainPrompt])
    ensures k < |entries| && entries[k].None? && k < |confirmations| && confirmations[k] ==>
              && PasswordRetry(entries[k + 1..], confirmations[k + 1..]).verdict == PasswordRetry(entries[k..], confirmations[k..]).verdict
              && PasswordRetry(entries[k + 1..], confirmations[k + 1..]).password == PasswordRetry(entries[k..], confirmations[k..]).password
              && PasswordRetry(entries[k + 1..], confirmations[k + 1..]).confirmationsUsed + 1
                 == PasswordRetry(entries[k..], confirmations[k..]).confirmationsUsed
              && (shown + [PasswordPrompt, TryAgainPrompt]) + PasswordRetry(entries[k + 1..], confirmations[k + 1..]).trace
                 == shown + PasswordRetry(entries[k..], confirmations[k..]).trace
  {
    if k < |entries| && k < |confirmations| {
      assert entries[k..][1..] == entries[k + 1..];
      assert confirmations[k..][1..] == confirmations[k + 1..];
      var rest := PasswordRetry(entries[k + 1..], confirmations[k + 1..]);
      assert (shown + [PasswordPrompt, TryAgainPrompt]) + rest.trace == shown + ([PasswordPrompt, TryAgainPrompt] + rest.trace);
    }
  }

  /** The password loop of workflow_restore_from_mnemonic. */
  method SetPasswordWithRetry(entries: seq<Option<Password>>, confirmations: seq<bool>) returns (run: PasswordRun)
    ensures run == PasswordRetry(entries, confirmations)
  {
    ghost var whole := PasswordRetry(entries, confirmations);
    var k := 0;
    var trace: seq<Event> := [];
    assert entries[0..] == entries && confirmations[0..] == confirmations;
    while true
      invariant 0 <= k <= |entries| && k <= |confirmations|
      invariant PasswordRetry(entries[k..], confirmations[k..]).verdict == whole.verdict
      invariant PasswordRetry(entries[k..], confirmations[k..]).password == whole.password
      invariant PasswordRetry(entries[k..], confirmations[k..]).confirmationsUsed + k == whole.confirmationsUsed
      invariant trace + PasswordRetry(entries[k..], confirmations[k..]).trace == whole.trace
      decreases |entries| - k
    {
      PasswordRetryAt(entries, confirmations, k, trace);
      if k == |entries| {
        return PasswordRun(Blocked, "", k, trace + [PasswordPrompt]);
      }
      if entries[k].Some? {
        return PasswordRun(Returned(true), entries[k].value, k, trace + [PasswordPrompt]);
      }
      if k == |confirmations| {
        return PasswordRun(Blocked, "", k, trace + [PasswordPrompt, TryAgainPrompt]);
      }
      if !confirmations[k] {
        return PasswordRun(Returned(false), "", k + 1, trace + [PasswordPrompt, TryAgainPrompt]);
      }
      trace := trace + [PasswordPrompt, TryAgainPrompt];
      k := k + 1;
    }
  }

  // ---------------------------------------------------------------------
  // workflow_restore_from_mnemonic

  /** The workflow as a function of the platform and the user's answers. */
  function Restore(platform: Platform, user: UserScript, request: RestoreRequest, appU2F: bool): (run: RestoreRun)
  {
    var m := MnemonicEntry(platform.bip39Word, user.wordCount, user.wordInputs);
    if m.verdict != Returned(true) then RestoreRun(m.verdict, m.trace)
    else
      var t1 := m.trace + [DeriveSeed(m.text)];
      match platform.mnemonicToSeed(m.text)
      case None => RestoreRun(Returned(false), t1 + [Status(WordsInvalid, false)])
      case Some(seed) =>
        var pw := PasswordRetry(user.passwords, user.confirmations);
        var t2 := t1 + [Status(WordsValid, true)] + pw.trace;
        if pw.verdict != Returned(true) then RestoreRun(pw.verdict, t2)
        else
          var t3 := t2 + [StoreSeed(seed, pw.password)];
          if !platform.encryptAndStoreSeed(seed, pw.password) then
            RestoreRun(Returned(false), t3 + [Status(RestoreFailed, false)])
          else
            var finish := FinishRestore(platform, request, appU2F, user.confirmations[pw.confirmationsUsed..], pw.password);
            RestoreRun(finish.verdict, t3 + finish.trace)
  }

  /** Marking the device initialized, then unlocking it with the password
      and unlocking the BIP-39 seed; a failed unlock aborts. The trace holds
      only these steps. */
  function InitializeAndUnlock(platform: Platform, password: Password): (run: RestoreRun)
    ensures forall k :: 0 <= k < |run.trace| ==> Stage(run.trace[k]) >= 10
    ensures run.verdict.Halted? <==> platform.setInitialized && !platform.unlock(password)
  {
    if !platform.setInitialized then RestoreRun(Returned(false), [SetInitialized])
    else if !platform.unlock(password) then RestoreRun(Halted(UNLOCK_FAILED), [SetInitialized, Unlock(password)])
    else RestoreRun(Returned(true), [SetInitialized, Unlock(password), UnlockBip39])
  }

  /** The steps after the seed is stored: under APP_U2F the time
      confirmation (answered by answers[0]) and setting the U2F counter,
      whose result is ignored; then InitializeAndUnlock. The trace holds
      only these steps, all of them later than storing the seed. */
  function FinishRestore(platform: Platform, request: RestoreRequest, appU2F: bool, answers: seq<bool>, password: Password)
    : (run: RestoreRun)
    ensures forall k :: 0 <= k < |run.trace| ==> Stage(run.trace[k]) >= 8
    ensures run.verdict.Halted? <==>
              (!appU2F || (answers != [] && answers[0])) && platform.setInitialized && !platform.unlock(password)
  {
    var confirm := ConfirmTime(request.timestamp, request.timezoneOffset);
    if !appU2F then InitializeAndUnlock(platform, password)
    else if answers == [] then RestoreRun(Blocked, [confirm])
    else if !answers[0] then RestoreRun(Returned(false), [confirm])
    else
      var rest := InitializeAndUnlock(platform, password);
      RestoreRun(rest.verdict, [confirm, SetU2FCounter(request.timestamp)] + rest.trace)
  }

  /** workflow_restore_from_mnemonic, with APP_U2F as the flag `appU2F`. */
  method WorkflowRestoreFromMnemonic(platform: Platform, user: UserScript, request: RestoreRequest, appU2F: bool)
    returns (verdict: Verdict, trace: seq<Event>)
    ensures RestoreRun(verdict, trace) == Restore(platform, user, request, appU2F)
  {
    var mnemonicVerdict, mnemonic, entryTrace, _ := GetMnemonic(platform.bip39Word, user.wordCount, user.wordInputs);
    trace := entryTrace;
    if mnemonicVerdict != Returned(true) {
      return mnemonicVerdict, trace;
    }
    trace := trace + [DeriveSeed(mnemonic)];
    var seed := platform.mnemonicToSeed(mnemonic);
    if seed.None? {
      return Returned(false), trace + [Status(WordsInvalid, false)];
    }
    trace := trace + [Status(WordsValid, true)];
    var password := SetPasswordWithRetry(user.passwords, user.confirmations);
    trace := trace + password.trace;
    if password.verdict != Returned(true) {
      return password.verdict, trace;
    }
    trace := trace + [StoreSeed(seed.value, password.password)];
    if !platform.encryptAndStoreSeed(seed.value, password.password) {
      return Returned(false), trace + [Status(RestoreFailed, false)];
    }
    var finish;
    verdict, finish := FinishSteps(platform, request, appU2F, user.confirmations[password.confirmationsUsed..],
                                   password.password);
    return verdict, trace + finish;
  }

  /** The steps of workflow_restore_from_mnemonic after the seed is stored;
      `finish` lists only their events. */
  method FinishSteps(platform: Platform, request: RestoreRequest, appU2F: bool, answers: seq<bool>, password: Password)
    returns (verdict: Verdict, finish: seq<Event>)
    ensures RestoreRun(verdict, finish) == FinishRestore(platform, request, appU2F, answers, password)
  {
    finish := [];
    if appU2F {
      finish := [ConfirmTime(request.timestamp, request.timezoneOffset)];
      if answers == [] {
        return Blocked, finish;
      }
      if !answers[0] {
        return Returned(false), finish;
      }
      finish := finish + [SetU2FCounter(request.timestamp)];
      var _ := platform.u2fCounterSet(request.timestamp);  // result ignored
    }
    ghost var u2f := finish;
    finish := finish + [SetInitialized];
    if !platform.setInitialized {
      return Returned(false), finish;
    }
    finish := finish + [Unlock(password)];
    if !platform.unlock(password) {
      assert finish == u2f + [SetInitialized, Unlock(password)];
      return Halted(UNLOCK_FAILED), finish;
    }
    finish := finish + [UnlockBip39];
    assert finish == u2f + [SetInitialized, Unlock(password), UnlockBip39];
    return Returned(true), finish;
  }

  // ---------------------------------------------------------------------
  // Properties of the workflow

  /** Which step of the workflow an event belongs to. */
  function Stage(e: Event): nat {
    match e
    case WordCountPrompt => 0
    case Status(m, _) =>
      (match m
       case EnterWords(_) => 1
       case WordsInvalid => 4
       case WordsValid => 4
       case RestoreFailed => 7)
    case WordPrompt(_, _) => 2
    case DeriveSeed(_) => 3
    case PasswordPrompt => 5
    case TryAgainPrompt => 5
    case StoreSeed(_, _) => 6
    case ConfirmTime(_, _) => 8
    case SetU2FCounter(_) => 9
    case SetInitialized => 10
    case Unlock(_) => 11
    case UnlockBip39 => 12
  }

  /** Only the word-entry and password screens may be shown more than once. */
  predicate Repeatable(e: Event) {
    e.WordPrompt? || e == PasswordPrompt || e == TryAgainPrompt
  }

  /** The steps appear in workflow order and each non-repeatable one at most once. */
  predicate StagesOrdered(t: seq<Event>) {
    forall i, j :: 0 <= i < j < |t| ==>
      Stage(t[i]) < Stage(t[j]) || (Stage(t[i]) == Stage(t[j]) && Repeatable(t[i]))
  }

  lemma OrderedAppend(a: seq<Event>, b: seq<Event>, s: nat)
    requires StagesOrdered(a) && StagesOrdered(b)
    requires forall i :: 0 <= i < |a| ==> Stage(a[i]) <= s
    requires forall j :: 0 <= j < |b| ==> Stage(b[j]) > s
    ensures StagesOrdered(a + b)
  {
    var t := a + b;
    forall i, j | 0 <= i < j < |t|
      ensures Stage(t[i]) < Stage(t[j]) || (Stage(t[i]) == Stage(t[j]) && Repeatable(t[i]))
    {
      if j < |a| {
        assert t[i] == a[i] && t[j] == a[j];
      } else if i >= |a| {
        assert t[i] == b[i - |a|] && t[j] == b[j - |a|];
      } else {
        assert t[i] == a[i] && t[j] == b[j - |a|];
      }
    }
  }


  /** The trace of _get_mnemonic holds only its own steps, and it halts
      only on the unreachable word-count choice. */
  lemma MnemonicTraceStages(bip39Word: nat -> Option<Word>, choice: TrinaryChoice, inputs: seq<WordInput>)
    ensures var run := MnemonicEntry(bip39Word, choice, inputs);
      && (forall i :: 0 <= i < |run.trace| ==> Stage(run.trace[i]) <= 2)
      && (run.verdict.Halted? ==> run.verdict == Halted(UNREACHABLE_CHOICE))
  {
    if WordlistAvailable(bip39Word) && PickNumberOfWords(choice).Some? {
      EntryStaysInBounds(PickNumberOfWords(choice).value, 0, EmptySlots(), inputs);
    }
  }

  /** The password loop shows only password and "Try again?" screens. */
  lemma PasswordTraceStages(entries: seq<Option<Password>>, confirmations: seq<bool>)
    ensures forall i :: 0 <= i < |PasswordRetry(entries, confirmations).trace| ==>
              Stage(PasswordRetry(entries, confirmations).trace[i]) == 5 &&
              Repeatable(PasswordRetry(entries, confirmations).trace[i])
  {
    PasswordRetryOutcome(entries, confirmations);
  }

  /** The trace of _get_mnemonic holds only its own steps, in order. */
  lemma MnemonicTraceOrdered(bip39Word: nat -> Option<Word>, choice: TrinaryChoice, inputs: seq<WordInput>)
    ensures StagesOrdered(MnemonicEntry(bip39Word, choice, inputs).trace)
    ensures forall i :: 0 <= i < |MnemonicEntry(bip39Word, choice, inputs).trace| ==>
              Stage(MnemonicEntry(bip39Word, choice, inputs).trace[i]) <= 2
  {
    if WordlistAvailable(bip39Word) && PickNumberOfWords(choice).Some? {
      var n := PickNumberOfWords(choice).value;
      var entry := Entry(n, 0, EmptySlots(), inputs);
      EntryStaysInBounds(n, 0, EmptySlots(), inputs);
      AppendLaterEvent([WordCountPrompt], Status(EnterWords(n), true));
      AppendLaterBlock([WordCountPrompt] + [Status(EnterWords(n), true)], entry.trace, 2);
      assert [WordCountPrompt] + [Status(EnterWords(n), true)] == [WordCountPrompt, Status(EnterWords(n), true)];
    }
  }

  lemma InitializeAndUnlockOrdered(platform: Platform, password: Password)
    ensures StagesOrdered(InitializeAndUnlock(platform, password).trace)
  {
    if platform.setInitialized {
      OrderedAppend([SetInitialized], [Unlock(password)], 10);
      if platform.unlock(password) {
        OrderedAppend([SetInitialized, Unlock(password)], [UnlockBip39], 11);
      }
    }
  }

  /** The steps after storing come in stage order. */
  lemma FinishRestoreOrdered(
    platform: Platform, request: RestoreRequest, appU2F: bool, answers: seq<bool>, password: Password)
    ensures StagesOrdered(FinishRestore(platform, request, appU2F, answers, password).trace)
  {
    var rest := InitializeAndUnlock(platform, password);
    InitializeAndUnlockOrdered(platform, password);
    if appU2F && answers != [] && answers[0] {
      var u2f := [ConfirmTime(request.timestamp, request.timezoneOffset), SetU2FCounter(request.timestamp)];
      OrderedAppend(u2f[..1], u2f[1..], 8);
      assert u2f[..1] + u2f[1..] == u2f;
      OrderedAppend(u2f, rest.trace, 9);
    }
  }

  /** Trace events never come out of order: the workflow runs its steps in
      sequence, at most once each, apart from the word and password retries. */
  lemma RestoreStagesOrdered(platform: Platform, user: UserScript, request: RestoreRequest, appU2F: bool)
    ensures StagesOrdered(Restore(platform, user, request, appU2F).trace)
  {
    var m := MnemonicEntry(platform.bip39Word, user.wordCount, user.wordInputs);
    var pw := PasswordRetry(user.passwords, user.confirmations);
    RestoreTraceBeforeStore(platform, user, request, appU2F);
    RestoreTraceAfterStore(platform, user, request, appU2F);
    MnemonicTraceOrdered(platform.bip39Word, user.wordCount, user.wordInputs);
    if m.verdict == Returned(true) {
      var t1 := m.trace + [DeriveSeed(m.text)];
      AppendLaterEvent(m.trace, DeriveSeed(m.text));
      if platform.mnemonicToSeed(m.text).None? {
        AppendLaterEvent(t1, Status(WordsInvalid, false));
        assert t1 + [Status(WordsInvalid, false)] + [] == t1 + [Status(WordsInvalid, false)];
      } else {
        var seed := platform.mnemonicToSeed(m.text).value;
        AppendLaterEvent(t1, Status(WordsValid, true));
        PasswordBlockOrdered(t1 + [Status(WordsValid, true)], user.passwords, user.confirmations);
        var t2 := t1 + [Status(WordsValid, true)] + pw.trace;
        if pw.verdict == Returned(true) {
          AfterStoreOrdered(platform, request, appU2F, user.confirmations[pw.confirmationsUsed..], t2, seed, pw.password);
        }
      }
    }
  }

  /** The store step and everything after it keep an ordered trace of the
      steps up to the password loop ordered. */
  lemma AfterStoreOrdered(
    platform: Platform, request: RestoreRequest, appU2F: bool, answers: seq<bool>,
    t2: seq<Event>, seed: Seed, password: Password)
    requires StagesOrdered(t2)
    requires forall i :: 0 <= i < |t2| ==> Stage(t2[i]) <= 5
    ensures var t3 := t2 + [StoreSeed(seed, password)];
      && StagesOrdered(t3 + [Status(RestoreFailed, false)])
      && StagesOrdered(t3 + FinishRestore(platform, request, appU2F, answers, password).trace)
  {
    var t3 := t2 + [StoreSeed(seed, password)];
    AppendLaterEvent(t2, StoreSeed(seed, password));
    AppendLaterEvent(t3, Status(RestoreFailed, false));
    FinishRestoreOrdered(platform, request, appU2F, answers, password);
    OrderedAppend(t3, FinishRestore(platform, request, appU2F, answers, password).trace, 7);
  }

  /** Appending an event of a later stage keeps the trace ordered. */
  lemma AppendLaterEvent(t: seq<Event>, e: Event)
    requires StagesOrdered(t)
    requires forall i :: 0 <= i < |t| ==> Stage(t[i]) < Stage(e)
    ensures StagesOrdered(t + [e])
    ensures forall i :: 0 <= i < |t + [e]| ==> Stage((t + [e])[i]) <= Stage(e)
  {
    var u := t + [e];
    forall i | 0 <= i < |u| ensures Stage(u[i]) <= Stage(e) {
      if i < |t| {
        assert u[i] == t[i];
      }
    }
    forall i, j | 0 <= i < j < |u|
      ensures Stage(u[i]) < Stage(u[j]) || (Stage(u[i]) == Stage(u[j]) && Repeatable(u[i]))
    {
      assert u[i] == t[i];
      if j < |t| {
        assert u[j] == t[j];
      }
    }
  }

  /** Appending the screens of the password loop keeps the trace ordered. */
  lemma PasswordBlockOrdered(t: seq<Event>, entries: seq<Option<Password>>, confirmations: seq<bool>)
    requires StagesOrdered(t)
    requires forall i :: 0 <= i < |t| ==> Stage(t[i]) < 5
    ensures var u := t + PasswordRetry(entries, confirmations).trace;
      StagesOrdered(u) && forall i :: 0 <= i < |u| ==> Stage(u[i]) <= 5
  {
    PasswordTraceStages(entries, confirmations);
    AppendLaterBlock(t, PasswordRetry(entries, confirmations).trace, 5);
  }

  /** Appending a block of repeatable events of one later stage keeps the
      trace ordered. */
  lemma AppendLaterBlock(t: seq<Event>, block: seq<Event>, s: nat)
    requires StagesOrdered(t)
    requires forall i :: 0 <= i < |t| ==> Stage(t[i]) < s
    requires forall i :: 0 <= i < |block| ==> Stage(block[i]) == s && Repeatable(block[i])
    ensures StagesOrdered(t + block)
    ensures forall i :: 0 <= i < |t + block| ==> Stage((t + block)[i]) <= s
  {
    var u := t + block;
    forall i | 0 <= i < |u| ensures Stage(u[i]) <= s {
      if i < |t| {
        assert u[i] == t[i];
      } else {
        assert u[i] == block[i - |t|];
      }
    }
    forall i, j | 0 <= i < j < |u|
      ensures Stage(u[i]) < Stage(u[j]) || (Stage(u[i]) == Stage(u[j]) && Repeatable(u[i]))
    {
      if j < |t| {
        assert u[i] == t[i] && u[j] == t[j];
      } else if i < |t| {
        assert u[i] == t[i] && u[j] == block[j - |t|];
      } else {
        assert u[i] == block[i - |t|] && u[j] == block[j - |t|];
      }
    }
  }

  /** The workflow succeeds exactly when every step succeeds; the result of
      setting the U2F counter plays no part. */
  lemma RestoreSucceedsIff(platform: Platform, user: UserScript, request: RestoreRequest, appU2F: bool)
    ensures var m := MnemonicEntry(platform.bip39Word, user.wordCount, user.wordInputs);
            var pw := PasswordRetry(user.passwords, user.confirmations);
      Restore(platform, user, request, appU2F).verdict == Returned(true) <==>
        && m.verdict == Returned(true)
        && platform.mnemonicToSeed(m.text).Some?
        && pw.verdict == Returned(true)
        && platform.encryptAndStoreSeed(platform.mnemonicToSeed(m.text).value, pw.password)
        && (appU2F ==> pw.confirmationsUsed < |user.confirmations| && user.confirmations[pw.confirmationsUsed])
        && platform.setInitialized
        && platform.unlock(pw.password)
  {
  }

  /** How each early return of the workflow ends: the mnemonic's own
      verdict, false for an invalid mnemonic, the password loop's verdict
      (false when "Try again?" was declined), false for a failed store, a
      declined time confirmation or a failed memory_set_initialized, and an
      abort for a failed unlock. Only a missing answer leaves it Blocked. */
  lemma RestoreFailsAt(platform: Platform, user: UserScript, request: RestoreRequest, appU2F: bool)
    ensures var m := MnemonicEntry(platform.bip39Word, user.wordCount, user.wordInputs);
            var seed := platform.mnemonicToSeed(m.text);
            var pw := PasswordRetry(user.passwords, user.confirmations);
            var later := user.confirmations[pw.confirmationsUsed..];
            var verdict := Restore(platform, user, request, appU2F).verdict;
      && (m.verdict != Returned(true) ==> verdict == m.verdict)
      && (m.verdict == Returned(true) && seed.None? ==> verdict == Returned(false))
      && (m.verdict == Returned(true) && seed.Some? && pw.verdict != Returned(true) ==> verdict == pw.verdict)
      && (m.verdict == Returned(true) && seed.Some? && pw.verdict == Returned(true) ==>
            && (!platform.encryptAndStoreSeed(seed.value, pw.password) ==> verdict == Returned(false))
            && (platform.encryptAndStoreSeed(seed.value, pw.password) ==>
                  && (appU2F && later == [] ==> verdict == Blocked)
                  && (appU2F && later != [] && !later[0] ==> verdict == Returned(false))
                  && ((!appU2F || (later != [] && later[0])) ==>
                        && (!platform.setInitialized ==> verdict == Returned(false))
                        && (platform.setInitialized && !platform.unlock(pw.password) ==>
                              verdict == Halted(UNLOCK_FAILED)))))
  {
  }

  /** Apart from an unreachable word-count choice, the only halt is a failed
      unlock right after every earlier step succeeded. */
  lemma RestoreHaltsOnlyOnUnlock(platform: Platform, user: UserScript, request: RestoreRequest, appU2F: bool)
    ensures var run := Restore(platform, user, request, appU2F);
      run.verdict.Halted? ==>
        run.verdict == Halted(UNREACHABLE_CHOICE) ||
        (run.verdict == Halted(UNLOCK_FAILED) && |run.trace| > 0 && run.trace[|run.trace| - 1].Unlock? &&
         !platform.unlock(run.trace[|run.trace| - 1].password))
  {
    MnemonicTraceStages(platform.bip39Word, user.wordCount, user.wordInputs);
    PasswordRetryOutcome(user.passwords, user.confirmations);
  }

  /** Every StoreSeed call in the trace `t` stores `seed` under `password`. */
  predicate StoresOnly(t: seq<Event>, seed: Seed, password: Password) {
    forall k :: 0 <= k < |t| && t[k].StoreSeed? ==> t[k] == StoreSeed(seed, password)
  }

  predicate NeverStores(t: seq<Event>) {
    forall k :: 0 <= k < |t| ==> !t[k].StoreSeed?
  }

  /** The seed is stored only after password_set succeeded: every StoreSeed
      in the trace stores the seed derived from the entered mnemonic under
      the password the password loop produced. */
  lemma SeedStoredOnlyAfterPasswordSet(platform: Platform, user: UserScript, request: RestoreRequest, appU2F: bool)
    requires MnemonicEntry(platform.bip39Word, user.wordCount, user.wordInputs).verdict == Returned(true)
    requires platform.mnemonicToSeed(MnemonicEntry(platform.bip39Word, user.wordCount, user.wordInputs).text).Some?
    requires PasswordRetry(user.passwords, user.confirmations).verdict == Returned(true)
    ensures var m := MnemonicEntry(platform.bip39Word, user.wordCount, user.wordInputs);
      StoresOnly(Restore(platform, user, request, appU2F).trace,
                 platform.mnemonicToSeed(m.text).value, PasswordRetry(user.passwords, user.confirmations).password)
  {
    var m := MnemonicEntry(platform.bip39Word, user.wordCount, user.wordInputs);
    var pw := PasswordRetry(user.passwords, user.confirmations);
    var seed := platform.mnemonicToSeed(m.text).value;
    MnemonicTraceStages(platform.bip39Word, user.wordCount, user.wordInputs);
    PasswordTraceStages(user.passwords, user.confirmations);
    var t2 := m.trace + [DeriveSeed(m.text)] + [Status(WordsValid, true)] + pw.trace;
    BeforeStoreStages(m.trace, m.text, Status(WordsValid, true), pw.trace);
    StoredOnceAfterPassword(platform, request, appU2F, user.confirmations[pw.confirmationsUsed..], t2, seed, pw.password);
  }

  /** Without an entered mnemonic, a valid seed and a password, nothing is
      stored. */
  lemma NothingStoredWithoutPassword(platform: Platform, user: UserScript, request: RestoreRequest, appU2F: bool)
    ensures var m := MnemonicEntry(platform.bip39Word, user.wordCount, user.wordInputs);
      !(m.verdict == Returned(true) && platform.mnemonicToSeed(m.text).Some? &&
        PasswordRetry(user.passwords, user.confirmations).verdict == Returned(true)) ==>
      NeverStores(Restore(platform, user, request, appU2F).trace)
  {
    var m := MnemonicEntry(platform.bip39Word, user.wordCount, user.wordInputs);
    var pw := PasswordRetry(user.passwords, user.confirmations);
    MnemonicTraceStages(platform.bip39Word, user.wordCount, user.wordInputs);
    PasswordTraceStages(user.passwords, user.confirmations);
    RestoreTraceBeforeStore(platform, user, request, appU2F);
    if m.verdict == Returned(true) {
      var valid := platform.mnemonicToSeed(m.text).Some?;
      var status := if valid then Status(WordsValid, true) else Status(WordsInvalid, false);
      BeforeStoreStages(m.trace, m.text, status, if valid then pw.trace else []);
    }
  }

  /** The trace of a run that stops before storing the seed. */
  lemma RestoreTraceBeforeStore(platform: Platform, user: UserScript, request: RestoreRequest, appU2F: bool)
    ensures var m := MnemonicEntry(platform.bip39Word, user.wordCount, user.wordInputs);
            var pw := PasswordRetry(user.passwords, user.confirmations);
            var run := Restore(platform, user, request, appU2F);
      && (m.verdict != Returned(true) ==> run.trace == m.trace)
      && (m.verdict == Returned(true) && platform.mnemonicToSeed(m.text).None? ==>
            run.trace == m.trace + [DeriveSeed(m.text)] + [Status(WordsInvalid, false)] + [])
      && (m.verdict == Returned(true) && platform.mnemonicToSeed(m.text).Some? && pw.verdict != Returned(true) ==>
            run.trace == m.trace + [DeriveSeed(m.text)] + [Status(WordsValid, true)] + pw.trace)
  {
  }

  /** The trace of a run that stores the seed. */
  lemma RestoreTraceAfterStore(platform: Platform, user: UserScript, request: RestoreRequest, appU2F: bool)
    ensures var m := MnemonicEntry(platform.bip39Word, user.wordCount, user.wordInputs);
            var pw := PasswordRetry(user.passwords, user.confirmations);
            var seed := platform.mnemonicToSeed(m.text);
            var run := Restore(platform, user, request, appU2F);
      m.verdict == Returned(true) && seed.Some? && pw.verdict == Returned(true) ==>
        var t3 := m.trace + [DeriveSeed(m.text)] + [Status(WordsValid, true)] + pw.trace + [StoreSeed(seed.value, pw.password)];
        run.trace == t3 + if platform.encryptAndStoreSeed(seed.value, pw.password)
                          then FinishRestore(platform, request, appU2F, user.confirmations[pw.confirmationsUsed..], pw.password).trace
                          else [Status(RestoreFailed, false)]
  {
  }

  /** A mnemonic the BIP-39 check rejects ends the workflow with false and
      the "invalid" status as the last step. */
  lemma InvalidMnemonicEndsRestore(platform: Platform, user: UserScript, request: RestoreRequest, appU2F: bool)
    requires MnemonicEntry(platform.bip39Word, user.wordCount, user.wordInputs).verdict == Returned(true)
    requires platform.mnemonicToSeed(MnemonicEntry(platform.bip39Word, user.wordCount, user.wordInputs).text).None?
    ensures var run := Restore(platform, user, request, appU2F);
      run.verdict == Returned(false) && |run.trace| > 0 && run.trace[|run.trace| - 1] == Status(WordsInvalid, false)
  {
  }

  /** Events up to the end of the password loop belong to stages up to 5,
      so none of them stores the seed. */
  lemma BeforeStoreStages(entered: seq<Event>, text: string, status: Event, passwordTrace: seq<Event>)
    requires forall i :: 0 <= i < |entered| ==> Stage(entered[i]) <= 2
    requires Stage(status) == 4
    requires forall i :: 0 <= i < |passwordTrace| ==> Stage(passwordTrace[i]) == 5
    ensures var t := entered + [DeriveSeed(text)] + [status] + passwordTrace;
      forall k :: 0 <= k < |t| ==> Stage(t[k]) <= 5 && !t[k].StoreSeed?
  {
    var t := entered + [DeriveSeed(text)] + [status] + passwordTrace;
    forall k | 0 <= k < |t| ensures Stage(t[k]) <= 5 {
      if k < |entered| {
        assert t[k] == entered[k];
      } else if k >= |entered| + 2 {
        assert t[k] == passwordTrace[k - |entered| - 2];
      }
    }
  }

  /** After the events up to the password loop, only the store step
      itself stores the seed. */
  lemma StoredOnceAfterPassword(
    platform: Platform, request: RestoreRequest, appU2F: bool, answers: seq<bool>,
    t2: seq<Event>, seed: Seed, password: Password)
    requires forall k :: 0 <= k < |t2| ==> Stage(t2[k]) <= 5
    ensures var t3 := t2 + [StoreSeed(seed, password)];
            var after := if platform.encryptAndStoreSeed(seed, password) then
                           FinishRestore(platform, request, appU2F, answers, password).trace
                         else [Status(RestoreFailed, false)];
      StoresOnly(t3 + after, seed, password)
  {
    var t3 := t2 + [StoreSeed(seed, password)];
    var after := if platform.encryptAndStoreSeed(seed, password) then
                   FinishRestore(platform, request, appU2F, answers, password).trace
                 else [Status(RestoreFailed, false)];
    assert forall k :: 0 <= k < |after| ==> Stage(after[k]) >= 7;
    var trace := t3 + after;
    forall k | 0 <= k < |trace| && k != |t2| ensures !trace[k].StoreSeed? {
      if k < |t2| {
        assert trace[k] == t2[k];
      } else {
        assert trace[k] == after[k - |t3|];
      }
    }
  }
}
