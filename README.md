# Lobby hosting text and draft model

A Dafny model of two parts of a lobby-hosting web app for Pokémon raids:

- **Slug and label text.** `unSlugify` turns PokeAPI slugs (`very-soft`, `VERY_SOFT`)
  into labels ("Very Soft"). `pickRandomFromEnum` picks one string member of a
  TypeScript enum. `generateRandomSlug` builds a CamelCase lobby slug from five
  enum picks.
- **The host page.** The host edits the reward counts one unit at a time. The form
  draft is restored from, and saved to, browser storage. The "Go" button then runs a
  fixed sequence of requests: save the draft, check the user is signed in, draw slugs
  until one is free, insert the lobby, and only after a successful insert add the
  host to the lobby's queue.

Files:
- `optional.dfy`: `Option`, standing in for `undefined`/`null`.
- `slug.dfy`: module `Slug`.
- `host.dfy`: module `Host`.

Modelling choices:
- Strings are `seq<char>`.
- JavaScript's `\w` and `\s` classes are modelled exactly. Upper- and lower-casing are
  modelled for ASCII letters only.
- `unSlugify` has two steps. `ReplaceSeparators` turns each `-` and `_` into a space.
  `TitleWords` then scans left to right. A word starts at a word character and runs
  to the next whitespace. Its first character is upper-cased and the rest lower-cased.
  Characters between words are left as they are.
- `ExpectedAt` is an independent, per-position definition of the same result. It
  looks at the character and at whether a word already started earlier in the same
  run of non-whitespace (`InRun`). `TitleWordsAt` proves the scan and this
  definition agree. Every `unSlugify` property below is derived from that lemma.
- The random index of `pickRandomFromEnum` is a parameter. The five picks of
  `generateRandomSlug` are a `SlugPicks` value.
- `Object.values(e)` is given as a sequence of `EnumValue`: member names
  (strings) and numbers.
- The rewards record is a `map<string, int>`.
- Store, auth client and router answers are parameters:
  - the exact-count reply of the slug existence query, as a function from slug to reply;
  - the reply to the lobby insert.
- `CreateLobby` returns the requests it issues, in order, plus how the attempt ends
  and the final spinner flag.
- The page never calls `setRepeat`, so the draft's `repeat` is `true`
  in every lobby it inserts. `InitialDraft` starts it at `true` even when a saved
  value exists.

## Model

| member | source | states |
|---|---|---|
| `Slug.ReplaceSeparators` | src/utils/pokemon-client.ts:22 | no contract of its own; its properties are the rows for `Slug.UnSlugifyPositions` and `Slug.UnSlugifyJoin` |
| `Slug.TitleWords` | src/utils/pokemon-client.ts:23 | no contract of its own; its properties are the rows for `Slug.RunLength`, `Slug.TitleWordsAt`, `Slug.TitleWordsIdempotent` and `Slug.TitleWordsSplit` |
| `Slug.UnSlugify` | src/utils/pokemon-client.ts:20-24 | no contract of its own; its properties are the rows for `Slug.UnSlugifyPositions`, `Slug.UnSlugifyWellCased`, `Slug.UnSlugifyIdempotent` and `Slug.UnSlugifyJoin` |
| `Slug.RunLength` | src/utils/pokemon-client.ts:23 | the length of `\S*` at the start of a string: nothing before it is whitespace, and the character at that point is whitespace or the end |
| `Slug.TitleWordsAt` | src/utils/pokemon-client.ts:23 | the title-casing replace keeps the length, and every character matches the per-position reference `ExpectedAt`: a word's first character upper-case, the rest of the word lower-case, everything else unchanged |
| `Slug.UnSlugifyPositions` | src/utils/pokemon-client.ts:20-24 | `unSlugify` keeps the length; every `-`/`_` becomes a space at the same position; other whitespace stays put; every other character is kept up to case; no `-` or `_` is left |
| `Slug.UnSlugifyWellCased` | src/utils/pokemon-client.ts:23 | in the output, each word's first character is not lower-case and the rest of the word is not upper-case |
| `Slug.TitleWordsIdempotent` | src/utils/pokemon-client.ts:23 | running the title-casing replace a second time changes nothing |
| `Slug.UnSlugifyIdempotent` | src/utils/pokemon-client.ts:20-24 | `unSlugify(unSlugify(s)) == unSlugify(s)` |
| `Slug.TitleWordsSplit` | src/utils/pokemon-client.ts:23 | a whitespace character splits the title-casing into two independent halves |
| `Slug.UnSlugifyJoin` | src/utils/pokemon-client.ts:20-24 | `unSlugify(a + "-" + b)` is `unSlugify(a) + " " + unSlugify(b)` |
| `Slug.StringMembers` | src/utils/pokemon-client.ts:70 | the filtered values are exactly the enum's string members, and there are no more of them than values |
| `Slug.StringMembersSingle` | src/utils/pokemon-client.ts:70 | the filter keeps a lone member name and drops a lone number |
| `Slug.StringMembersConcat` | src/utils/pokemon-client.ts:70 | the filter distributes over concatenation; with `StringMembersSingle` this fixes the result as the string values in their original order and with their repetitions |
| `Slug.PickFromEnum` | src/utils/pokemon-client.ts:69-73 | a pick exists exactly when the index is below the number of string members, and it is then a string member of the enum, the one at that index |
| `Slug.RemoveSpaces` | src/utils/pokemon-client.ts:66 | whitespace removal leaves no whitespace and never lengthens the string |
| `Slug.RemoveSpacesDeletesOnlySpaces` | src/utils/pokemon-client.ts:66 | whitespace removal deletes nothing else: every character kept comes from the input, a string without whitespace comes back unchanged, and a lone whitespace character comes back empty |
| `Slug.RemoveSpacesConcat` | src/utils/pokemon-client.ts:66 | whitespace removal distributes over concatenation |
| `Slug.HyphenateFive` | src/utils/pokemon-client.ts:66 | joining the five picks gives the template `softness-flavor-contest-habitat-berry` |
| `Slug.GenerateSlug` | src/utils/pokemon-client.ts:59-67 | no contract of its own; its properties are the rows for `Slug.HyphenateFive`, `Slug.GenerateSlugClean` and `Slug.GenerateSlugParts` |
| `Slug.GenerateSlugClean` | src/utils/pokemon-client.ts:66 | a generated slug contains no whitespace, no `-` and no `_` |
| `Slug.GenerateSlugParts` | src/utils/pokemon-client.ts:59-67 | a generated slug is the concatenation of the picks' labels, spaces removed, in the order softness, flavor, contest, habitat, berry; this is not the order the picks are drawn in |
| `Slug.JoinedPart` | src/utils/pokemon-client.ts:66 | the label of `a-b` with spaces removed is the label of `a` followed by the label of `b` |
| `Host.AddReward` | src/app/host/host-page.tsx:37-40 | adding `name` sets its count to the previous count plus 1, counting from 0 when absent; adds only that key; every other key is unchanged |
| `Host.RemoveReward` | src/app/host/host-page.tsx:42-45 | removing `name` lowers its count by exactly 1, and it does not go below 0; a key that reaches 0 is kept; every other key is unchanged |
| `Host.RewardEditsKeepValid` | src/app/host/host-page.tsx:141-160 | adding and removing keep every count non-negative; a remove button exists for `name` exactly when its count is at least 1 |
| `Host.AddThenRemove` | src/app/host/host-page.tsx:37-45 | adding then removing the same name restores its count; the record itself is restored, except that a new key stays at 0 |
| `Host.RemoveThenAdd` | src/app/host/host-page.tsx:37-45 | removing then adding the same name restores the record exactly |
| `Host.IconCount` | src/app/host/host-page.tsx:141-144 | no contract of its own; the number of remove buttons drawn, a sum over the keys; its properties are the rows for `Host.IconCountWithout`, `Host.AddRewardIcons` and `Host.RemoveRewardIcons` |
| `Host.IconCountWithout` | src/app/host/host-page.tsx:141-144 | the number of remove buttons drawn is the sum of the counts, whichever key is taken first |
| `Host.AddRewardIcons` | src/app/host/host-page.tsx:141-172 | an add draws exactly one more remove button |
| `Host.RemoveRewardIcons` | src/app/host/host-page.tsx:141-160 | a remove draws exactly one fewer remove button |
| `Host.InitialDraft` | src/app/host/host-page.tsx:28-35 | with nothing saved: stars 5, no Pokémon, description `""`, rewards `{}`; saved stars/description/rewards win when present; `repeat` always starts `true` |
| `Host.SaveDraft` | src/app/host/host-page.tsx:53-62 | the saved entry records `repeat`, and reading it back restores the draft except that `repeat` is `true` again |
| `Host.Candidates` | src/app/host/host-page.tsx:75 | one candidate per pick, the slug that pick generates, in drawing order; its use is in the rows for `Host.FindFreeSlug` and `Host.CreateLobby` |
| `Host.FirstFree` | src/app/host/host-page.tsx:74-79 | the reference for the retry loop: the position of the first candidate whose check does not answer a count of 1, every earlier one answering 1, or the number of candidates when all answer 1 |
| `Host.CheckedUpToFirstFree` | src/app/host/host-page.tsx:74-79 | a run of checks that stops at the first answer other than 1, or after the last pick, is exactly the candidates up to and including `FirstFree` |
| `Host.FindFreeSlug` | src/app/host/host-page.tsx:72-79 | the slugs checked are exactly the generated candidates up to and including the first one whose check does not answer a count of 1, in generation order; a slug is returned exactly when such a candidate exists, and it is that first acceptable candidate |
| `Host.CreateLobby` | src/app/host/host-page.tsx:48-110 | the draft is saved first, and only once. With no user, sign-in is started and nothing else is issued. With a user the whole request list is fixed: the save, then the checks of the candidates up to and including the first acceptable one with nothing in between, then, when there is such a slug and a Pokémon, the lobby insert with that slug, the draft's stars/description/Pokémon/repeat/rewards and `host_id` = the user's id. If that insert succeeds, the host's membership insert follows with the new lobby's id, and then navigation to the lobby. A lobby insert is issued whenever there is a user, a Pokémon and some candidate not reported taken. Ending out of candidates means every candidate was reported taken and only the save and all checks were issued. Navigation, when issued, is the last request. The spinner is cleared only when the lobby insert fails |
| `Host.SignedInInserts` | src/app/host/host-page.tsx:81-107 | a signed-in creation that reaches the insert issues exactly the save, the checks, the lobby insert and, on success, the membership insert and navigation |
| `Host.SignedInOutOfCandidates` | src/app/host/host-page.tsx:74-79 | when every candidate is taken, the requests are the save and the checks of all candidates |
| `Host.SignedInMissingPokemon` | src/app/host/host-page.tsx:81-90 | with a free slug but no Pokémon, the requests stop after the checks up to the free slug |

## Left out

- Network and store calls are not modelled as services. This covers the PokeAPI fetches and React `cache` (`getPokemonList`, `getItemList`, `getRewards`, `getPokemon`, `buildPokemonContext`), the module-level API client objects, and every Supabase call. Their answers are parameters, and the requests the page issues are recorded as `Request` values.
- The Supabase auth flows (OAuth sign-in, sign-up, refresh) and the pages and components that only render or authenticate are left out: login page, auth header, providers, combobox, stars, Pokémon and user views, layout, and the two route pages.
- `Math.random` and `Math.floor` are floating-point randomness. `PickFromEnum` takes the resulting index as a parameter, and the slug loop takes its picks as a list.
- `toUpperCase` and `toLowerCase` are modelled for ASCII letters only. Non-ASCII characters are left unchanged, and Unicode case mappings that change length are not modelled.
- `charAt` and `slice` work on UTF-16 code units in JavaScript. The model works on Unicode characters.
- Browser storage, `JSON.stringify` and `JSON.parse` are represented by the parsed `SavedLobby` record. A malformed stored entry, which would make `JSON.parse` throw, is not modelled. `window.location` becomes the `url` parameter, and `router.push` becomes a `Navigate` request.
- FindFreeSlug: the source loop draws candidates without bound. The model checks a given finite list of picks, and if every candidate is taken it stops with no slug; `CreateLobby` then ends with `OutOfCandidates`, which the source has no counterpart for.
- CreateLobby: the source ignores the reply to the membership insert, so the model ignores it too. A failed or rejected insert therefore still leads to navigation.
- CreateLobby: the `pokemon.name` read throws a TypeError when no Pokémon was chosen. The model represents that as ending with `MissingPokemon`, with no lobby insert and the spinner left on. The rejected promise itself is not modelled.
- RemoveReward: this requires that a remove button for `name` is on the page, because the handler is only attached to those buttons. So the source's `undefined - 1` (NaN) for an absent key is not modelled.
- React state scheduling (functional `setRewards` updates, re-renders, stale closures) is not modelled. Neither is the page's display logic: `times`, `Transition`, item lookup for icons, and the 256-character limit on the description field.
- The lobby session coordinator is not part of this model: party/queue split, access-code phases, change-feed reconciliation and presence. None of its code is in the files modelled here.
