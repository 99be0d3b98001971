# Event bot core, modelled in Dafny

This project models the core of a Discord event bot. Users create an event
card with a `new` command. They join or leave by reacting to the card. The
author or an administrator deletes it with a reaction. A server registers its
channel and language with `init`. The model covers three parts of the source.

- **The event engine** of `src/services/DBE.service.ts`, in `dbe.dfy`
  (module `Dbe`). The class `DbeService` holds:
  - the back end's event records, keyed by event id;
  - the index from card message id to record;
  - the participant list each live card shows;
  - the server configurations;
  - the trace of calls the engine made on its collaborators.

  Its methods change these fields step by step, as the source does. Each
  method is proved to reach the state that a function on a `World` value gives
  (`SyncOne`, `SyncAll`, `Edit`, `Delete`, `New`, `Init`). Each of those
  functions is proved to keep the world consistent:
  - every record has its card, and the card shows the record's participants;
  - no card outlives its record;
  - no list holds a repeat;
  - a card is edited only right after a successful participant write;
  - a card is deleted only right after a successful record delete, or right
    after the post that would have created its record failed (that the
    deleted record is the card's own is stated by `Dbe.DeleteOutcome`);
  - a card that was sent is posted as an event by the next call, and a card
    whose post failed is deleted by the next call.

  Separate lemmas state what each operation writes: the record's new list,
  the card that shows it, the calls made, and that nothing else changes.
- **The participant-list operations** the engine uses, in `participants.dfy`
  (module `Participants`). These are the JavaScript array operations written
  out: the bot filter, `indexOf` with `splice(i, 1)`, de-duplication through a
  `Set`, and `Array.prototype.sort` on strings.
- **The message helpers** of `src/services/Messages.service.ts`, in
  `messages.dfy` (module `Messages`):
  - placeholder substitution (`parseLangMessage`), with the pattern
    `/\$\$(\S*)\$\$/`, `indexOf`, `split` and `replace` written out;
  - the participants text of the event card;
  - the two level tables;
  - option normalisation and the option handling of `generateEmbed`;
  - the language lookup.
- **The older utilities** of `lib/utils/functions.ts`, in `legacy.dfy`
  (module `Legacy`):
  - the database connection string;
  - the empty-message guard;
  - the second copies of the substitution and of the colour table, each
    proved to agree with the copy in `src/services/Messages.service.ts`.

`wrappers.dfy` holds the `Option` type.

Collaborators become parameters:
- the back end's answers (a write that succeeds or returns null, a fresh id);
- the chat client's answers (the reactors of a card, a channel that is not a
  text channel, an unreachable card, the administrator flag, the id of a
  sent card);
- the clock, as an integer instant `now` in milliseconds.

Some behaviours of the code that a reader may not expect, which the model
follows:
- Removing a reaction is `splice(indexOf(user), 1)`. It is not an idempotent
  set-remove. When the user is not in the list, `indexOf` gives -1 and the
  last participant is dropped (`RemoveIsSetRemoveIff`, `LeaveTwice`).
- A user who may not delete an event gets no answer at all.
- In the startup loop the fetches are awaited without a catch. So a card that
  cannot be fetched ends the whole loop; it does not just skip that event.
- A date that does not parse is not rejected as past. luxon's difference is
  NaN, and `NaN <= 0` is false.
- The startup reconciliation writes the reactor list in sorted order, because
  `sort()` works in place on the array that is then written.
- A configuration id of `""` is falsy, so a new configuration is created
  instead of the existing one being updated.
- When several configurations match, the last one wins, both in `initCommand`
  and in `getLangFromMessage`.

## Model

| member | source | states |
|---|---|---|
| Dbe.DbeService.FormatUsersForCompare | src/services/DBE.service.ts:346-357 | the result is exactly the reactor ids other than the bot's own, in iteration order |
| Participants.Without | src/services/DBE.service.ts:350-354 | an id is in the result iff it is in the input and is not the excluded id; never longer; no repeats are introduced |
| Participants.Sort | src/services/DBE.service.ts:142 | the sorted copy is a permutation of the input (same multiset, same length) |
| Participants.SortSorted | src/services/DBE.service.ts:142 | the sorted copy is ordered under the default string comparison of `Array.prototype.sort` |
| Participants.SortedUnique | src/services/DBE.service.ts:142 | two ordered lists with the same elements, repeats counted, are equal, so any correct sort gives the same array |
| Participants.SortEqualIff | src/services/DBE.service.ts:142 | the sorted copies of two lists are equal iff the lists are equal as multisets: order is ignored, repeats are not |
| Dbe.Reactors | src/services/DBE.service.ts:139-142 | the list the reconciliation writes is sorted, holds the reactors other than the bot as a multiset, and has no repeats when the reactors have none |
| Dbe.SyncOne | src/services/DBE.service.ts:142-164 | equal sorted lists change nothing; a failed write changes no record and no card; records keep their cards |
| Dbe.SyncOneOutcome | src/services/DBE.service.ts:142-164 | when the lists differ and the write succeeds, the record holds the sorted reactors and its card shows them, no other record or card changes, and the calls are the write followed by exactly one edit of that card showing that list; a failed write records only the attempt |
| Dbe.SyncOneChangesNothingIff | src/services/DBE.service.ts:142-164 | the reconciliation leaves the world unchanged iff the reactors other than the bot equal the stored participants as multisets |
| Dbe.SyncOneChangesNothingSetIff | src/services/DBE.service.ts:142-164 | for distinct reactors and a record without repeats, the reconciliation changes nothing iff the reactors other than the bot are exactly the stored participants, in any order |
| Dbe.SyncOneConsistent | src/services/DBE.service.ts:146-163 | the reconciliation keeps the world consistent: a card is edited only right after a successful write of the list it shows |
| Dbe.DbeService.SynchroniseParticipants | src/services/DBE.service.ts:133-165 | the new state is the reconciliation of the old one, and stays consistent |
| Dbe.Visit | src/services/DBE.service.ts:106-120 | a card outside a text channel leaves the world unchanged |
| Dbe.SyncAll | src/services/DBE.service.ts:100-123 | the startup loop keeps every record on its card and leaves the configurations alone |
| Dbe.SyncAllConsistent | src/services/DBE.service.ts:102-121 | the startup loop keeps a consistent world consistent |
| Dbe.SyncAllSequential | src/services/DBE.service.ts:102-121 | the loop visits events in list order, one at a time: running it on `a` and then `b` is running it on `a + b` |
| Dbe.DbeService.CacheAndSynchronise | src/services/DBE.service.ts:100-123 | the new state is the startup loop over the events, stopping at an unreachable card, and stays consistent |
| Participants.Dedup | src/services/DBE.service.ts:278 | `[...new Set(s)]` has no repeats, holds exactly the elements of `s`, and is never longer |
| Participants.DedupKeepsOrder | src/services/DBE.service.ts:278 | the Set keeps first occurrences in order: of two elements of the result, the one whose first occurrence in `s` is earlier comes first |
| Participants.DedupOfNoDup | src/services/DBE.service.ts:278 | a list without repeats passes through the Set unchanged, in order |
| Participants.IndexOf | src/services/DBE.service.ts:273 | `indexOf` gives -1 iff the id is absent, and otherwise the first position holding it |
| Participants.RemoveByIndexOf | src/services/DBE.service.ts:273-274 | `splice(indexOf(u), 1)` removes the first `u` when present, the last element when absent, and nothing from an empty list |
| Participants.Mutate | src/services/DBE.service.ts:270-278 | the new list has no repeats; adding gives exactly the old elements plus the user; removing adds nothing |
| Participants.AddToNoDup | src/services/DBE.service.ts:270-278 | on a list without repeats, adding appends a new user at the end and leaves a present user's list unchanged |
| Participants.AddIdempotent | src/services/DBE.service.ts:270-278 | adding the same user twice gives the list that adding once gives |
| Participants.RemoveFromNoDup | src/services/DBE.service.ts:272-278 | on a list without repeats, removing deletes the user's only occurrence, or drops the last element when the user is absent, and leaves an empty list empty |
| Participants.RemoveIsSetRemoveIff | src/services/DBE.service.ts:272-278 | removal agrees with an ideal set-remove iff the user is present or the list is empty |
| Participants.RemoveTwiceDropsAnother | src/services/DBE.service.ts:272-278 | removing a present user twice drops another participant the second time |
| Participants.NoDupPermutation | src/services/DBE.service.ts:142 | reordering a list without repeats, as the in-place sort does, keeps it free of repeats |
| Dbe.Edit | src/services/DBE.service.ts:262-301 | a missing record or a failed write changes no record and no card; records keep their cards |
| Dbe.EditOutcome | src/services/DBE.service.ts:262-301 | a card without a record only gets the user an error; otherwise, after a successful write, the record holds the list with the user added or removed, its card shows that list, no other record or card changes, and exactly one edit of that card follows the write; a failed write gets the user an error and changes nothing else |
| Dbe.EditConsistent | src/services/DBE.service.ts:262-301 | a reaction keeps the world consistent: no repeats, and the card is edited only after a successful write of the list it shows |
| Dbe.JoinTwice | src/services/DBE.service.ts:270-301 | joining twice leaves the records as joining once |
| Dbe.LeaveTwice | src/services/DBE.service.ts:272-301 | leaving twice on a card with at least two participants changes the records again, so leaving is not idempotent |
| Dbe.DbeService.EditParticipants | src/services/DBE.service.ts:260-302 | the new state is the reaction's outcome, and stays consistent |
| Dbe.Delete | src/services/DBE.service.ts:311-338 | records change iff the card has a record, the user is its author or an administrator, and the delete succeeded; a user without the right changes nothing; no record is ever added |
| Dbe.DeleteOutcome | src/services/DBE.service.ts:311-338 | a card without a record only gets the user an error; a user without the right changes nothing; a refused delete logs the refused delete of the card's record and an error, and changes nothing else; an accepted delete removes exactly the card's record, its index entry and the card, keeps the configurations, and logs the delete of that record, then of that card, then the success notice |
| Dbe.DeleteConsistent | src/services/DBE.service.ts:326-336 | a delete keeps the world consistent: the card is deleted only right after a successful record delete, and no record loses its card |
| Dbe.DbeService.DeleteEvent | src/services/DBE.service.ts:311-338 | the new state is the delete's outcome, and stays consistent |
| Dbe.InPast | src/services/DBE.service.ts:197 | a date that did not parse (whose difference is NaN) is never in the past; a valid date is in the past iff its instant is at or before now |
| Dbe.New | src/services/DBE.service.ts:186-249 | an unmatched command or a past date only notifies the author, before anything is sent or posted; a failed post leaves records and cards unchanged |
| Dbe.NewOutcome | src/services/DBE.service.ts:219-244 | a created event is stored under the back end's id with the author, the parsed fields and no participants, its card indexes it and shows nobody, and the join and leave reactions go under the card; after a failed post the card is deleted by the next call and the author is told |
| Dbe.NewConsistent | src/services/DBE.service.ts:219-244 | creating an event keeps the world consistent; a sent card is posted next, and the card of a failed post is deleted next, so no card is left without a record |
| Dbe.DbeService.NewCommand | src/services/DBE.service.ts:176-250 | the new state is the creation's outcome, and stays consistent |
| Dbe.LastRegistered | src/services/DBE.service.ts:48-54 | the forEach finds nothing iff no configuration names the server, and otherwise the last one that does |
| Dbe.DbeService.FindRegistration | src/services/DBE.service.ts:45-54 | the loop's result is the id of the server's last configuration, or null |
| Dbe.Reassigned | src/services/DBE.service.ts:58 | every configuration with the updated id moves to the channel and language; the others are unchanged |
| Dbe.Init | src/services/DBE.service.ts:36-89 | records and cards are never touched; an unknown language or a failed write leaves the configurations unchanged |
| Dbe.InitOutcome | src/services/DBE.service.ts:36-89 | records and cards are never touched; an unknown language only tells the author; a server whose last configuration has a truthy id is updated through `putServerConfig`, so on success no configuration is added and those with another id are untouched, and on failure nothing changes; any other server gets a new configuration through `postServerConfig`, appended after the existing ones on success; the calls and the notice are exact |
| Dbe.InitRegisters | src/services/DBE.service.ts:41-80 | after a successful registration, the server's last configuration names the channel and the language, whether it was updated or created |
| Dbe.InitConsistent | src/services/DBE.service.ts:36-89 | a registration keeps the world consistent |
| Dbe.DbeService.InitCommand | src/services/DBE.service.ts:36-89 | the new state is the registration's outcome, and stays consistent |
| Messages.IndexOfTextFound | src/services/Messages.service.ts:145 | what `indexOf` finds is an occurrence, at or after the start |
| Messages.ReplaceFirstAtFirstOccurrence | src/services/DBE.service.ts:38 | `replace` with a string pattern leaves a text without the pattern as it is, and otherwise replaces the pattern where it first occurs, keeping the text before and after |
| Messages.IndexOfTextFirst | src/services/Messages.service.ts:145 | `indexOf` finds an occurrence whenever there is one, never later than any occurrence |
| Messages.NextMarkerIsIndexOf | src/services/Messages.service.ts:144 | `indexOf('$$')` finds the next marker |
| Messages.MatchAtIsRegexMatch | src/services/Messages.service.ts:142 | checking the text up to the next `$$` decides exactly whether `/\$\$(\S*)\$\$/` matches at a position |
| Messages.FirstMatchFound | src/services/Messages.service.ts:142 | what the match search finds is a match at or after the start |
| Messages.FirstMatchFirst | src/services/Messages.service.ts:142 | the match search finds a match whenever there is one, never later than any match (leftmost) |
| Messages.KeyBeforeMarker | src/services/Messages.service.ts:144 | `slice(index + 2).split('$$')[0]` is the text between the opening `$$` and the next `$$` |
| Messages.LiteralAtFirstMatch | src/services/Messages.service.ts:144-145 | the literal `$$key$$` handed to `replace` first occurs exactly at the leftmost match |
| Messages.ReplaceIsStep | src/services/Messages.service.ts:144-145 | one loop turn replaces exactly the leftmost placeholder with its value and leaves the text before and after it untouched |
| Messages.ReplaceLeftmost | src/services/Messages.service.ts:144-145 | one turn of the loop of parseLangMessage performs exactly that step |
| Messages.StepRemovesDollars | src/services/Messages.service.ts:143-147 | each turn removes at least four `$`, so the loop terminates when the values hold none |
| Messages.ParseLangMessage | src/services/Messages.service.ts:140-149 | the result is the leftmost-first substitution of the message, and the pattern no longer matches it |
| Messages.SubstitutedIsFinal | src/services/Messages.service.ts:143-148 | the pattern does not match the substituted text |
| Messages.SubstitutedHasNoPlaceholder | src/services/Messages.service.ts:143-148 | no position of the substituted text holds a `$$X$$` with X free of white space |
| Messages.SubstitutedUnchangedIff | src/services/Messages.service.ts:140-149 | a text comes back unchanged iff the pattern does not match it |
| Messages.SubstitutedAfterNoDollar | src/services/Messages.service.ts:140-149 | `$`-free text before the rest is carried through unchanged, and the rest is substituted as if it stood alone |
| Messages.LeadingPlaceholder | src/services/Messages.service.ts:140-149 | a text opening with `$$key$$` gets the key's value in its place, or `undefined` for a missing key, and the rest is substituted on its own |
| Messages.FourPlaceholdersFilled | src/services/Messages.service.ts:140-149 | a template of four placeholders between `$`-free texts gets each placeholder replaced by its value, in place |
| Messages.EnglishTemplateFilled | src/i18n/enEN.i18n.ts:41 | the English event template, filled, is the four values in the template's surrounding text |
| Messages.MentionsNoDollar | src/services/Messages.service.ts:186-189 | the mention lines hold a `$` iff some participant id holds one |
| Messages.MentionsAppend | src/services/Messages.service.ts:186-189 | the mention lines of concatenated lists are the concatenated lines, so each participant contributes its line in order |
| Messages.ParticipantsText | src/services/Messages.service.ts:182-191 | an empty list gives the no-participant line; otherwise the text is one `\n - <@!id>` line per participant, in order |
| Messages.EmbedColorByLevel | src/services/Messages.service.ts:40-51 | error, info and success map to 16711680, 36295 and 1744384, anything else to 12619008; every colour fits in 24 bits |
| Messages.EmbedThumbnailByLevel | src/services/Messages.service.ts:59-70 | error, info and success map to their pictures, anything else to the warning picture |
| Messages.ParseOptions | src/services/Messages.service.ts:209-227 | string options are copied only when truthy, so the result never holds an empty string; no options give all fields undefined; the placeholder values are carried over |
| Messages.ParseOptionsIdempotent | src/services/Messages.service.ts:209-227 | normalising normalised options changes nothing |
| Messages.GenerateEmbed | src/services/Messages.service.ts:75-113 | the title is kept; the description is substituted iff placeholder values are given; the colour follows the level; a thumbnail or picture is attached iff its option is truthy |
| Messages.GenerateEventEmbed | src/services/Messages.service.ts:164-201 | an information-level card whose description is the language's template filled with the event's values; with the English strings the full text is spelled out |
| Messages.GetLangFromMessage | src/services/Messages.service.ts:120-132 | null iff no configuration serves the guild and channel, and otherwise the language of the last one that does |
| Legacy.MongoDbConnectionString | lib/utils/functions.ts:40-55 | the string built piece by piece is the connection string of the environment and configuration |
| Legacy.CiUsesLocalServer | lib/utils/functions.ts:43-44 | in CI the string is the local server's address followed by the database name from the environment, whatever the configuration says |
| Legacy.CredentialsIffBoth | lib/utils/functions.ts:46-52 | outside CI the string holds an `@` iff both user name and password are set and non-empty, provided the server part has none |
| Legacy.CredentialsLeadTheString | lib/utils/functions.ts:46-52 | with both credentials the string is `mongodb://`, user, `:`, password, `@`, then address, port and name |
| Legacy.SendMessageByBot | lib/utils/functions.ts:80-88 | an empty message returns -1 and sends nothing; any other is sent once, unchanged |
| Legacy.ParseLangMessage | lib/utils/functions.ts:63-72 | the second copy returns the same substitution as the first, and the pattern no longer matches it |
| Legacy.EmbedColorByLevel | lib/utils/functions.ts:129-145 | the switch, with `warn` falling into the default, gives the same colour as the table in `src/services/Messages.service.ts` for every level |

## Left out

- Chat-client and back-end I/O are not modelled as code. The channel, message, guild and member fetches become parameters, as do `edit`, `delete`, `react`, `send` and the HTTP calls. Their outcomes are parameters or entries in the call trace.
- Deleting the card after a successful record delete, and deleting it on a failed post, are assumed to succeed. The source ignores or awaits those promises without handling a failure.
- Dates are not modelled as luxon values. A date is an integer instant, or none when the text did not parse, and "now" is a parameter. The day and time texts of the card are not derived from the instant.
- Dbe.New: the command pattern of `newCommand` and the picture-text munging are not modelled. The parsed fields are an input, and an unmatched command is `None`.
- Cards are recorded only by the participant list they show. The card's title, description, day, time and picture come from the record and are not re-derived. Its text is modelled separately, by `Messages.GenerateEventEmbed`.
- Messages.GenerateEmbed: the footer and author of the embed are not modelled; they need the chat client's user objects.
- The language lookup inside `synchroniseParticipants` (which language the edited card uses) is not modelled.
- The text of the private notices is not modelled. A notice is recorded by its kind.
- Dbe.Reassigned: what the back end does on `putServerConfig` is assumed. Every configuration with that id moves to the new channel and language. The refresh after the write is taken to return that list.
- Participants.Sort: the in-place sort of the source's array is modelled on values. The model has the sorted copy that the array holds afterwards.
- Messages.ParseLangMessage: the values must hold no `$`. JavaScript's `replace` reads `$` in the replacement as a pattern, and a value with `$$…$$` could make the loop run forever.
- Legacy.ParseLangMessage: the same precondition on values.
- Messages.GenerateEmbed: the same precondition on the placeholder values it passes on.
- Messages.GenerateEventEmbed: the same precondition, on the description, day, time, no-participant text and participant ids that fill the template.
- Messages.Value: a key missing from the values reads as `undefined`. In the source the values are a plain object, so a key that names a member of `Object.prototype` (`toString`, `constructor`, `valueOf`, `hasOwnProperty`, `__proto__` and the others) reads that inherited member. `replace` then calls it as a replacer or prints it, which gives other text (`toString` gives `[object Undefined]`), throws (`valueOf`), or puts the placeholder back so that the loop never ends (`constructor`). The model does not capture these keys.
- Messages.ReplaceLeftmost: for a key that names a member of `Object.prototype` and is missing from the values, the step does not match the source (see Messages.Value).
- Messages.StepRemovesDollars: does not hold in the source for the key `constructor` missing from the values, where the placeholder is put back and the loop does not end (see Messages.Value).
- Messages.LeadingPlaceholder: "`undefined` for a missing key" does not hold in the source for keys that name members of `Object.prototype` (see Messages.Value).
- Messages.ParseLangMessage: its result, and its termination, do not match the source for templates with a key that names a member of `Object.prototype` and is missing from the values (see Messages.Value); the same holds for Legacy.ParseLangMessage.
- Dbe.SyncOne, Dbe.Edit: card edits are assumed to succeed. In the source a rejected `edit` leaves the record written and the card stale, and the rejection escapes the startup loop; the model always records the edit and shows the new list. A second failure is not modelled either: `synchroniseParticipants` builds the card text with the language `getLangFromMessage` finds (src/services/DBE.service.ts:151-152), which is null when no guild configuration serves the card's guild and channel (src/services/Messages.service.ts:121-131); reading that language's strings then throws (src/services/Messages.service.ts:183, 196) after the participant write has succeeded, so the record is written, the card stays stale and the exception escapes the startup loop. `editParticipants` throws the same way when its caller passes a language without strings.
- The `clean` function, the second `generateEmbed` and `sendMessageByBotAndDelete` of `lib/utils/functions.ts` are not modelled; they are chat-client I/O.
- The logger and the globals singleton are not modelled.
- Concurrent reactions are not modelled. The source has no locking, so operations are modelled one after another.
- Characters are compared by code point. JavaScript's default sort compares UTF-16 code units, which differs only for characters outside the basic multilingual plane.
