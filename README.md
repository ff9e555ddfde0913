# BitBox02 mnemonic restore and multisig confirmation, in Dafny

This project models two control flows of the BitBox02 firmware and proves
properties of them.

- **Restoring a wallet from a BIP-39 mnemonic**
  (`workflow_restore_from_mnemonic`). The workflow:
  1. fetches the 2048-word BIP-39 wordlist;
  2. asks how many words (12, 18 or 24);
  3. runs the word-entry loop, where each word can be accepted, deleted
     (go back one word, keeping it as the preset) or cancelled;
  4. joins the words with single spaces into a fixed-size buffer;
  5. derives the seed and reports whether the words are valid;
  6. asks for a password, retrying for as long as the user confirms
     "Try again?";
  7. encrypts and stores the seed;
  8. under `APP_U2F`, confirms the time and sets the U2F counter;
  9. marks the device initialized and unlocks it. A failed unlock aborts.
- **Multisig account confirmation** (`apps_btc_confirm_multisig`). It shows
  a summary screen, then the account name. With `verify_xpubs`, it then
  shows one screen per cosigner, with that cosigner's xpub encoded in a
  format picked from a table of xpub family, coin and script type.

Files:

- `outcomes.dfy` (module `Outcomes`): `Option`, and `Verdict`, which says
  how a blocking workflow ends:
  - `Returned(ok)`: the C function returns `ok`.
  - `Halted(reason)`: `Abort(reason)`.
  - `Blocked`: a screen was shown but the scripted user answers ran out.
- `restore_from_mnemonic.dfy` (module `RestoreFromMnemonic`).
- `confirm_multisig.dfy` (module `ConfirmMultisig`).

Conventions:

- Each user interaction is a sequence of answers, consumed in order. The
  restore workflow has one stream per kind of interaction: the word-count
  choice, word-entry results, `password_set` outcomes, and yes/no answers.
  The yes/no stream is shared by "Try again?" and the time confirmation.
- Each foreign call is a field of `Platform` or a parameter. Calls that
  take arguments are arrow-typed; `memory_set_initialized`, which takes
  none, is the boolean field `setInitialized`:
  - keystore calls
  - BIP-39 seed derivation
  - secure-chip counter
  - `memory_set_initialized`
  - xpub decoding and encoding
- The restore workflow returns a trace of the screens shown and the
  foreign calls made, in order; the wordlist fetches
  (`keystore_get_bip39_word`) are not in it, since `LoadWordlist` states
  them. The multisig confirmation returns the screens shown only; its
  decode and encode calls are not recorded.
- Each loop of the source is a method over an array or a sequence. Its
  postcondition ties it to a specification function:
  - `Entry`, `Join`, `PasswordRetry`, `MnemonicEntry`, `Restore` and
    `FinishRestore` in the restore file;
  - the confirmation method states its promises directly.

  The properties are proved about those functions.

## Model

| member | source | states |
|---|---|---|
| RestoreFromMnemonic.PickNumberOfWords | src/workflow/restore_from_mnemonic.c:55-74 | LEFT, MIDDLE and RIGHT give 12, 18 and 24. Any other choice gives no count; the caller turns that into the "unreachable" abort. A count is always in {12, 18, 24} and at most MAX_WORDS. |
| RestoreFromMnemonic.CleanupWordlist | src/workflow/restore_from_mnemonic.c:76-84 | Afterwards every one of the 2048 wordlist slots is NULL. |
| RestoreFromMnemonic.LoadWordlist | src/workflow/restore_from_mnemonic.c:88-95 | Loading succeeds exactly when every one of the 2048 words can be fetched. On success slot i holds word i. On failure the buffer is released: every slot is NULL. |
| RestoreFromMnemonic.EntryStaysInBounds | src/workflow/restore_from_mnemonic.c:106-130 | The word-entry loop never halts. Every prompt is for an index below the word count, so every slot read or written is in bounds. Slots from the word count on are never touched. |
| RestoreFromMnemonic.EnteredWordsWereAccepted | src/workflow/restore_from_mnemonic.c:106-130 | Every slot either keeps its old word or holds a word the user entered. When the loop completes, every slot from the start index to the word count holds an entered word. |
| RestoreFromMnemonic.EntryAt | src/workflow/restore_from_mnemonic.c:112-129 | One round of the loop. CANCEL ends it with false after the one prompt. DELETE continues from the previous index (index 0 stays 0) with the slots unchanged. A word is stored in the slot and the loop continues from the next index. |
| RestoreFromMnemonic.DeleteAtFirstWordIsNoOp | src/workflow/restore_from_mnemonic.c:123-127 | DELETE at index 0 only shows the same prompt again; the run is otherwise as if it had not been given. |
| RestoreFromMnemonic.DeleteThenReenterIsNoOp | src/workflow/restore_from_mnemonic.c:112-129 | DELETE at p > 0, then re-entering the word already in slot p-1, ends exactly as if neither input had been given; only the two prompts are added. |
| RestoreFromMnemonic.DeleteRestoresPreset | src/workflow/restore_from_mnemonic.c:112-128 | DELETE does not clear a slot: after entering x at p and deleting, the prompt for p comes back with x as its preset. |
| RestoreFromMnemonic.EnterMnemonicWords | src/workflow/restore_from_mnemonic.c:103-130 | The in-place loop over the `words` array returns the verdict, final slots and prompts of the specification `Entry`. |
| RestoreFromMnemonic.Truncate | src/workflow/restore_from_mnemonic.c:135 | `strncat` with MAX_WORD_LENGTH keeps a prefix of the word of at most MAX_WORD_LENGTH characters; a short word is kept whole. |
| RestoreFromMnemonic.SplitJoin | src/workflow/restore_from_mnemonic.c:131-136 | With space-free words, splitting the joined mnemonic at its spaces gives back the truncated words: exactly one space separates consecutive words. |
| RestoreFromMnemonic.JoinSpaceCount | src/workflow/restore_from_mnemonic.c:131-136 | With space-free words, the joined mnemonic holds exactly (number of words − 1) spaces. |
| RestoreFromMnemonic.JoinHasNoOuterSpace | src/workflow/restore_from_mnemonic.c:131-136 | With non-empty, space-free words, the mnemonic has no leading or trailing space. |
| RestoreFromMnemonic.JoinLength | src/workflow/restore_from_mnemonic.c:131-147 | The mnemonic of n words is at most (MAX_WORD_LENGTH+1)*n − 1 characters long. With at most MAX_WORDS words it fits the (MAX_WORD_LENGTH+1)*MAX_WORDS buffer with its terminator. |
| RestoreFromMnemonic.JoinWords | src/workflow/restore_from_mnemonic.c:131-136 | The `strcat`/`strncat` loop builds `Join` of the first n slots. |
| RestoreFromMnemonic.MnemonicEntryShape | src/workflow/restore_from_mnemonic.c:86-138 | Without the full wordlist, `_get_mnemonic` returns false before the word count is asked. On any failure nothing is written to the output. On success the count was 12, 18 or 24 and the mnemonic fits the buffer. With non-empty, space-free words, the mnemonic has exactly that many words, count − 1 spaces and no outer space. |
| RestoreFromMnemonic.GetMnemonic | src/workflow/restore_from_mnemonic.c:86-138 | `_get_mnemonic` returns the run of the specification `MnemonicEntry`. On every return the wordlist slots are all NULL. |
| RestoreFromMnemonic.PasswordRetry | src/workflow/restore_from_mnemonic.c:166-179 | The password loop uses no more "Try again?" answers than it is given. |
| RestoreFromMnemonic.PasswordRetryOutcome | src/workflow/restore_from_mnemonic.c:166-179 | The loop has no retry limit and never halts. It shows only password and "Try again?" screens. It sets password p exactly when attempts 0..c-1 failed, each retry was confirmed, and attempt c produced p. It returns false exactly when attempt c-1 failed and its retry was declined. |
| RestoreFromMnemonic.PasswordRetryAt | src/workflow/restore_from_mnemonic.c:166-179 | One round of the loop. A set password ends it with true. A mismatch followed by "no" ends it with false. A mismatch followed by "yes" continues it from the next attempt. |
| RestoreFromMnemonic.SetPasswordWithRetry | src/workflow/restore_from_mnemonic.c:162-179 | The `while (true)` loop returns the run of the specification `PasswordRetry`. |
| RestoreFromMnemonic.InitializeAndUnlock | src/workflow/restore_from_mnemonic.c:194-203 | Its steps come after everything before them in the workflow. It halts exactly when marking the device initialized succeeded and the unlock failed. |
| RestoreFromMnemonic.FinishRestore | src/workflow/restore_from_mnemonic.c:184-203 | Every step after storing the seed belongs to a later stage than storing. It halts exactly when the time was confirmed (or APP_U2F is off), marking initialized succeeded and the unlock failed. |
| RestoreFromMnemonic.FinishSteps | src/workflow/restore_from_mnemonic.c:184-203 | The steps after storing return the verdict and events of `FinishRestore`. |
| RestoreFromMnemonic.WorkflowRestoreFromMnemonic | src/workflow/restore_from_mnemonic.c:140-204 | The workflow returns the verdict and trace of the specification `Restore`. |
| RestoreFromMnemonic.RestoreSucceedsIff | src/workflow/restore_from_mnemonic.c:149-203 | The workflow returns true exactly when each of these succeeds: the mnemonic, the seed derivation, the password, the store, the time confirmation (under APP_U2F), marking the device initialized, and the unlock. The U2F counter result plays no part. |
| RestoreFromMnemonic.RestoreStagesOrdered | src/workflow/restore_from_mnemonic.c:149-203 | Steps appear in workflow order. Each step appears at most once, except the word and password screens. |
| RestoreFromMnemonic.RestoreFailsAt | src/workflow/restore_from_mnemonic.c:149-203 | Each early return ends the workflow with its own verdict. A failed mnemonic passes its verdict on. An invalid mnemonic returns false. A failed password loop passes its verdict on, which is false when "Try again?" was declined. A failed store, a declined time confirmation and a failed memory_set_initialized return false. A failed unlock aborts with the unlock reason. Only a missing time-confirmation answer leaves it waiting. |
| RestoreFromMnemonic.RestoreHaltsOnlyOnUnlock | src/workflow/restore_from_mnemonic.c:197-201 | Apart from the unreachable word-count abort, the only halt is the failed unlock, as the last step. |
| RestoreFromMnemonic.SeedStoredOnlyAfterPasswordSet | src/workflow/restore_from_mnemonic.c:155-183 | Every store of the seed stores the seed derived from the entered mnemonic, under the password the loop produced. |
| RestoreFromMnemonic.NothingStoredWithoutPassword | src/workflow/restore_from_mnemonic.c:149-179 | Without a mnemonic, a valid seed and a set password, nothing is stored. |
| RestoreFromMnemonic.InvalidMnemonicEndsRestore | src/workflow/restore_from_mnemonic.c:155-158 | A mnemonic the seed derivation rejects ends the workflow with false and the "invalid" status as the last step. |
| RestoreFromMnemonic.RestoreTraceBeforeStore | src/workflow/restore_from_mnemonic.c:149-179 | Each early return before the store ends the trace right at its own step. A failed mnemonic ends it after the mnemonic steps. An invalid seed ends it after the "invalid" status. A failed password loop ends it after the password screens. |
| RestoreFromMnemonic.RestoreTraceAfterStore | src/workflow/restore_from_mnemonic.c:180-203 | Once the password is set, the seed store follows the password screens directly. After it come either the failure status or the later steps. |
| RestoreFromMnemonic.MnemonicTraceStages | src/workflow/restore_from_mnemonic.c:61-73 | `_get_mnemonic` shows only its own screens. Its only halt is the unreachable word-count choice. |
| RestoreFromMnemonic.MnemonicTraceOrdered | src/workflow/restore_from_mnemonic.c:97-130 | The word-count prompt, the "Enter N words" status and the word prompts come in that order. |
| RestoreFromMnemonic.PasswordTraceStages | src/workflow/restore_from_mnemonic.c:166-179 | The password loop shows only password and "Try again?" screens. |
| RestoreFromMnemonic.FinishRestoreOrdered | src/workflow/restore_from_mnemonic.c:184-203 | The time confirmation, the counter, marking initialized, the unlock and the BIP-39 unlock come in that order. |
| RestoreFromMnemonic.InitializeAndUnlockOrdered | src/workflow/restore_from_mnemonic.c:194-202 | Marking initialized, the unlock and the BIP-39 unlock come in that order. |
| ConfirmMultisig.ResolveOutputXPubType | src/apps/btc/confirm_multisig.c:66-116 | It halts exactly on an unknown family or coin, with the source's reason. It returns a plain false exactly on an Electrum request for an unknown script type. Otherwise it yields a format whose SLIP-0132 network matches the coin. That format announces the requested script (Electrum) or none (xpub/tpub). |
| ConfirmMultisig.ResolutionIsUnique | src/apps/btc/confirm_multisig.c:66-116 | No other format has the right network and the right announced script, so the table's answer is forced. |
| ConfirmMultisig.ConfirmCosigners | src/apps/btc/confirm_multisig.c:118-164 | Cosigner screens come in ascending order, one per cosigner. Each is scrollable, labelled i+1 of count, and marked "this device" exactly at our index. Only the last one needs a long touch. Each shows the encoded xpub. The first decode or encode failure, or the first decline, stops the loop. It returns true exactly when every xpub encodes and every screen is accepted. A false result means the last screen shown was declined or the next cosigner's xpub failed to encode. |
| ConfirmMultisig.Confirm | src/apps/btc/confirm_multisig.c:24-165 | The summary screen comes first and the account name second. Nothing is shown after a decline. Without `verify_xpubs` it returns true after exactly those two screens. Cosigner screens appear only with verification and a resolved format. It returns true exactly when everything is approved. It halts exactly when the table halts after the two approvals. Once the summary is approved the account name is shown. A halt comes after exactly those two screens. A false result means the last screen shown was declined, or the format is unsupported after the two screens, or the next cosigner's xpub failed to encode. |

## Left out

- The UI layer is not modelled: screen-stack pushes and pops, blocking and unblocking, and the callback slot for the word-count choice. The choice is a direct input.
- The "Enter N words" text is not modelled; only the count is recorded. The same applies to the status and confirmation texts.
- The following foreign calls are opaque functions of `Platform` that may fail:
  - BIP-39 checksum and PBKDF2 seed derivation;
  - seed encryption and storage;
  - the unlock calls;
  - `memory_set_initialized`;
  - the secure-chip U2F counter.
- The following are opaque parameters that may fail: xpub protobuf decoding and base58check/SLIP-0132 encoding.
- `btc_common_coin_name` is not modelled: the summary screen records the coin itself, so the model cannot fail or abort before the first screen on account of the coin.
- The `snprintf` texts and their overflow aborts (`apps_btc_confirm_multisig/0`, `/1`, `/2`) are not modelled. A screen is modelled by its fields: coin, threshold, count, position and the "this device" flag.
- `workflow_trinary_input_wordlist` is not modelled beyond its result. Restricting entry to wordlist words is its business, so an accepted word is any string. That is why the properties about spaces assume space-free, non-empty words.
- WORKFLOW_TRINARY_INPUT_MAX_WORD_LENGTH is defined in `trinary_input.h`, which is not part of this model. It is taken as 8, the longest BIP-39 English word. The proofs use only that it is positive.
- Zeroing by `UTIL_CLEANUP_STR`, `UTIL_CLEANUP_32` and the `__cleanup__` attribute is not modelled. The wordlist release is modelled, on returns only: an abort ends the device, and a run still waiting for the user has not returned.
- The `words` array of `_get_mnemonic` carries no cleanup attribute in the code. The model follows the code and claims no zeroing of it.
- `Blocked` is an artifact of finite answer sequences: the device would keep waiting.
- Seed length and the `seed_len` out-parameter are not modelled; a seed is a byte sequence.
- Integer widths are not modelled: `word_idx` and the count are `uint8_t` but stay at most 24, and the cosigner count is unbounded here.
