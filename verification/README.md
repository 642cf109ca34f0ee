# Number-hunting game bot: a verified model

The bot runs a group game in which players hunt for the numbers 1, 2, 3, … in
order. A player proves a find by posting a photo or video whose caption
starts with the number followed by `!` (for example `17! on a bus`). The bot
keeps three things in its key-value store:

- the last number found (`current_number`, 0 on an empty store);
- for each player, the set of numbers they found;
- for each found number, the id of the message that proved it.

A caption that claims exactly the successor of the counter is accepted. The
bot then adds the number to the player's set, records the message, and
advances the counter. Every other caption gets a "wrong number" reply and
changes nothing. A missing or empty caption gets no reply at all. The
`/stats` command reports the last number found and, for each player, how
many numbers they found, listed in ascending order with their messages.

The model has five modules:

- `Wrappers` (`wrappers.dfy`): `Option` and `Result`.
- `Caption` (`caption.dfy`): whitespace stripping as Python's `str.strip()`
  does it, and the anchored match of `(\d+)!`. There is an independent
  reference definition of what the pattern accepts (`MatchesAt`) and a
  round-trip through decimal printing (`Show`).
- `Game` (`game.dfy`): the state, the submission step and its global
  invariant. The invariant says the players' sets partition `{1..current}`
  and the message history has exactly those keys. The module also covers
  loading the store at start-up.
- `Stats` (`stats.dfy`): the per-player projection of `/stats`.
- `Scenario` (`scenario.dfy`): a short game played on concrete captions.

The store is modelled as plain maps. A Telegram update is modelled as a
record `(caption, user id, message id)`. Submissions are handled one after
another, as a sequence of steps.

## Model

| member | source | states |
|---|---|---|
| Caption.IsSpace | app.py:116 | the characters `str.strip()` removes; none of them is a digit or `!`, so stripping never cuts into a claim |
| Caption.TrimStart | app.py:116 | the result is a suffix of the caption, every dropped character is whitespace, and the result does not start with whitespace |
| Caption.TrimEnd | app.py:116 | the result is a prefix of the caption, every dropped character is whitespace, and the result does not end with whitespace |
| Caption.LeadingSpaces | app.py:116 | the whitespace run it measures is all whitespace and maximal: it is followed by the end of the text or by a non-space |
| Caption.Strip | app.py:116 | the stripped caption starts right after the caption's leading whitespace run and is followed only by whitespace; it neither starts nor ends with whitespace, so a whitespace-only caption strips to the empty string |
| Caption.LeadingDigits | app.py:28 | the digit run it measures is all digits and maximal: it is followed by the end of the text or by a non-digit |
| Caption.Decimal | app.py:117 | `int` of a digit string of length `L` is below `10^L`, and at least `10^(L-1)` when the string does not start with `0` |
| Caption.Show | app.py:117 | the decimal spelling of `n` is a non-empty digit string without a leading zero that `int` reads back as `n` |
| Caption.MatchesAtIsMaximalRun | app.py:28 | every split of the text into digits-then-`!` is the split at the maximal digit run, so the greedy `\d+` never needs to backtrack |
| Caption.LeadingZero | app.py:117 | a leading `0` does not change the value `int` reads, so `007` is worth 7 |
| Caption.DecimalThenShow | app.py:117 | printing the value of a digit string without a leading zero gives the string back, so `Show` and `Decimal` are inverse both ways |
| Caption.MatchNumber | app.py:28 | the match yields `n` if and only if the text starts with a non-empty digit run worth `n` immediately followed by `!`, and yields nothing when no such prefix exists; trailing text is ignored |
| Caption.ParseCaption | app.py:116-117 | a caption claims `n` if and only if its stripped text starts with digits worth `n` followed by `!`; it claims nothing if and only if no such prefix exists |
| Caption.CaptionRoundTrip | app.py:116-117 | any leading whitespace, then the decimal spelling of `n`, then `!`, then any text, is a caption that claims `n` |
| Caption.BlankClaimsNothing | app.py:115-117 | an empty or whitespace-only caption claims no number |
| Game.Accept | app.py:119-128 | an accepted find adds the number to the finder's set only, records the message under that number only, and advances the counter by one |
| Game.Step | app.py:111-133 | a missing or empty caption is ignored; a submission is accepted if and only if its caption claims `current + 1` (and the claim is not 0); on acceptance the counter becomes the claimed number, only the finder's set and that number's history entry change; every other outcome is a wrong number that reports `current + 1` and the claim, and leaves the state unchanged |
| Game.Run | app.py:111-133 | over any sequence of submissions the counter never decreases and rises by at most one per submission |
| Game.InitialInv | app.py:25 | a game started on an empty store, with counter 0 and no records, satisfies the invariant |
| Game.InvIsPartition | app.py:118-128 | under the invariant the players' sets are pairwise disjoint, their union is `{1..current}`, and the message history's key set is `{1..current}` |
| Game.AcceptPreservesInv | app.py:119-128 | recording the counter's successor keeps the partition and the history keys in step |
| Game.StepPreservesInv | app.py:111-133 | every submission, accepted or not, keeps the invariant |
| Game.RunPreservesInv | app.py:111-133 | every sequence of submissions keeps the invariant |
| Game.ReachableInv | app.py:25 | every state reached from an empty store satisfies the invariant |
| Game.FirstUnfoundIsSuccessor | app.py:118 | under the invariant, the smallest number without a proving message is exactly `current + 1` |
| Game.AcceptsFirstUnfound | app.py:118 | under the invariant a claim is accepted if and only if it is the smallest number nobody has found, so repeats and gaps are both refused |
| Game.StaleRejected | app.py:118 | a claim at or below the counter is answered as a wrong number and leaves the state unchanged |
| Game.RepeatRejected | app.py:132-133 | under the invariant, re-submitting an already found number is a wrong number and leaves the state unchanged |
| Game.UniqueFinder | app.py:119-125 | under the invariant each found number was found by exactly one player |
| Game.ReachableUniqueFinder | app.py:119-125 | in every game reached from an empty store, each number found so far was found by exactly one player |
| Game.Load | app.py:25 | an absent counter reads as 0; the players' sets and the history are read as stored; a store that holds a counter is read back exactly, so loading loses nothing |
| Game.Save | app.py:25 | writing a game out and loading it again at start-up gives back the same game |
| Game.RecordFind | app.py:122-128 | the writes of an accepted find add the number to the finder's stored set (creating it when absent) and leave every other player's set alone, store the message under the number and leave every other history entry alone, and store the new counter |
| Game.RecordFindSavesAccept | app.py:119-128 | the three store writes of an accepted find (add the number to the finder's set, store the message under the number, store the new counter) turn the saved game into the saved game after the find |
| Game.LoadEmpty | app.py:25 | loading an empty store gives a fresh game with counter 0 that satisfies the invariant |
| Stats.Sorted | app.py:88 | `sorted` of a player's set lists each of its numbers once, in strictly ascending order |
| Stats.Links | app.py:86-89 | the message lookup succeeds if and only if every number has a proving message, and then pairs each number with its own message, in order; otherwise it fails on the first number without one |
| Stats.LineFor | app.py:73-93 | a player's line succeeds if and only if all their numbers have proving messages; its count is the size of their set, and its entries list that set in strictly ascending order, each with its message |
| Stats.Lines | app.py:73-93 | there is one line per scanned key, in scan order, each reporting that player as above; the command fails if and only if some scanned player has a number without a message |
| Stats.Stats | app.py:69-93 | the report's last number is the counter, and its lines are those of the scanned players |
| Stats.StatsSucceed | app.py:86-89 | under the invariant the stats command never fails, whatever keys the scan returns |
| Stats.CountsAreUnionSize | app.py:76 | when no number has two finders, the counts over a scan without repeats add up to the number of distinct numbers those players found |
| Stats.CountsAddUp | app.py:69-92 | under the invariant, over a scan that lists each player once, the per-player counts add up to the last number found |
| Scenario.ShortGame | app.py:111-133 | from an empty store: `1!` by player 42 is found; `1!` again by player 7 and `3!` are wrong numbers asking for 2; ` 2! found it` is found; player 42 then holds `{1, 2}` |

## Left out

- Caption.ParseCaption: only ASCII `0`–`9` count as digits. Python's `\d` and `int()` also accept other Unicode decimal digits, such as Arabic-Indic digits. Those captions claim nothing in the model.
- Reply texts, `pin()`, the `/start` and `/help` commands, handler registration and polling are transport calls to the chat library. The model's `Outcome` records which reply would be sent.
- The handler's filter admits only photos and videos with a caption that are not commands. The model takes any `(caption, user, message)` record and treats a missing caption as ignored.
- The username lookup in `/stats` and its fallback name are chat-library calls. The model keeps the user id.
- The Markdown and link formatting of `/stats` is presentation only.
- The message-history section of `/stats` (app.py:96-100) dumps every history entry in store order. In the model that listing is the map `State.history` itself.
- Store transport, `scan_iter` ordering and byte decoding are not modelled. The scan order is a parameter of `Stats.Stats`.
- Stats.CountsAddUp: holds only for a scan that lists each player's key exactly once. A store scan may repeat a key, and then that player's line appears twice.
- Game.Load: the stored counter is modelled as an optional integer. A stored value that `int()` cannot read would make start-up fail, and that is not modelled. The channel id read at app.py:26 is unused by the shown code.
- Concurrent handlers sharing the global counter are not modelled. Submissions are a sequence of steps.
- The bot writes the store before it pins and replies. A failed pin or reply after acceptance does not undo the find. Transport failures are not modelled.
- The commented-out earlier `stats` (app.py:40-65) is dead code.
- The logging helpers in log_utils.py have no game behaviour.
- Multi-group games, channel set-up, reset, admin checks and a separate "already submitted" reply are not part of this version of app.py. Here a repeat gets the same "wrong number" reply as a gap, and the model follows the code.
