# Message Manager: broker connection retry and text-area search

This project models two pieces of the Message Manager desktop tool.

1. `ConnectToBrokerTask.execute()` connects to a message broker.
   - It reads the broker's stored credentials from the configuration and connects with them.
   - When the broker refuses them with a `JMSSecurityException`, it asks the domain for replacement credentials and tries again. There is no retry limit.
   - A `null` answer ends the task with `UserCanceledException`.
   - Any other exception ends the task unchanged.
   - After a successful connect, the credentials used are written back to the configuration when they are non-null.
2. `JSearchableTextArea` searches its own text.
   - F3 finds the selected text again, or the text entered in a "Find..." dialog.
   - Ctrl-F always asks the dialog.
   - Typing into a read-only area searches as you type.
   - The search ignores case. It selects the first occurrence at or after a start position and wraps to the top once.

Modules:

- `Optional` (`optional.dfy`): `Option`, which stands for a Java reference that may be `null`.
- `Tasks` (`tasks.dfy`): the retry loop.
  - `Negotiate` is the loop as a function of the outcomes of successive connect calls and the answers of successive `getCredentials` calls.
  - `Execution` is the whole of `execute()`: result, domain calls, store writes and the store afterwards.
  - `Rounds`, `EndAt` and `Attempted` give an independent closed-form description of the loop. The lemmas prove that the two descriptions agree.
  - The classes `CoreConfiguration`, `ScriptedDomain` and `ConnectToBrokerTask` hold the state. `ConnectToBrokerTask.Execute` is `execute()` itself and `RetryUntilSettled` its `while (true)` loop; both are proved to do exactly what `Execution` and `Negotiate` describe.
- `TextSearch` (`text_search.dfy`): the search as functions.
  - `IndexOf` is `String.indexOf`.
  - `FindMatch` is the position `search` selects.
  - `Searched`, `AfterKeyPressed` and `AfterKeyTyped` give the selection each handler leaves.
  - The lemmas state what those selections mean.
- `SearchUi` (`search_ui.dfy`): the classes `SearchableTextArea` and `SearchKeyAdapter`, whose methods update the selection in place. Each method is proved against the matching `TextSearch` function.

The domain is a scripted collaborator: each `connectToBroker` call takes the next outcome from a finite script, and each `getCredentials` call takes the next answer. A run that outlasts its scripts ends as `Unfinished`. Unfinished stands for the source's loop still waiting for an answer or still retrying, so every finite run of the unbounded loop is covered.

After every successful connect with non-null credentials, the code writes them back to the configuration, even when they equal what was stored. `SuccessStoresFinalCredentials` states this.

## Model

| member | source | states |
|---|---|---|
| `Tasks.Lookup` | messagemanager-core/src/main/java/nl/queuemanager/core/tasks/ConnectToBrokerTask.java:38 | getBrokerCredentials returns the broker's stored credentials, and null exactly when none are stored |
| `Tasks.Negotiate` | messagemanager-core/src/main/java/nl/queuemanager/core/tasks/ConnectToBrokerTask.java:41-50 | the loop makes no call only when there is no connect outcome at all, and its first call connects with the credentials it starts from. `NegotiationEnding`, `NegotiationCalls` and the outcome lemmas below state how it ends and what every call is |
| `Tasks.Finish` | messagemanager-core/src/main/java/nl/queuemanager/core/tasks/ConnectToBrokerTask.java:52-55 | after the loop the task completes exactly when a connect succeeded. It writes exactly the credentials that connected, once, when they are non-null, and the store is updated with that write and nothing else |
| `Tasks.Execution` | messagemanager-core/src/main/java/nl/queuemanager/core/tasks/ConnectToBrokerTask.java:37-56 | the first call connects with the stored credentials. At most one write happens, only on completion and only for this broker; the store gains at most this broker as a key, and every other broker's entry is unchanged |
| `Tasks.Rounds` | messagemanager-core/src/main/java/nl/queuemanager/core/tasks/ConnectToBrokerTask.java:41-50 | the number of times the loop goes round: every attempt before it was refused and answered with credentials, and the attempt it stops at was not both |
| `Tasks.RoundsUnique` | messagemanager-core/src/main/java/nl/queuemanager/core/tasks/ConnectToBrokerTask.java:41-50 | any k with k refused-and-answered attempts followed by a stopping attempt equals `Rounds` |
| `Tasks.NegotiationEnding` | messagemanager-core/src/main/java/nl/queuemanager/core/tasks/ConnectToBrokerTask.java:41-50 | the loop ends as the attempt at which it stops says: success with that attempt's credentials, the other failure, cancel on a null answer, or a wait. It makes two calls per round plus the calls of the last attempt |
| `Tasks.NegotiationCalls` | messagemanager-core/src/main/java/nl/queuemanager/core/tasks/ConnectToBrokerTask.java:38-46 | call 2k connects with attempt k's credentials: the stored ones for k = 0, otherwise exactly the answer to the previous getCredentials. Call 2k+1 asks for credentials only after attempt k got a security failure, passing the refused credentials and that exception |
| `Tasks.SuccessStoresFinalCredentials` | messagemanager-core/src/main/java/nl/queuemanager/core/tasks/ConnectToBrokerTask.java:41-55 | on success the last call is the successful connect, and every earlier attempt was refused. The store then holds that connect's credentials, written exactly once even if they equal the stored ones. With null credentials nothing is written and the store is unchanged |
| `Tasks.CancelLeavesStoreUnchanged` | messagemanager-core/src/main/java/nl/queuemanager/core/tasks/ConnectToBrokerTask.java:45-48 | a refusal answered with null after k rounds ends the task with UserCanceledException right after that getCredentials call. Nothing is written and the store is unchanged |
| `Tasks.CanceledOnlyByNullAnswer` | messagemanager-core/src/main/java/nl/queuemanager/core/tasks/ConnectToBrokerTask.java:46-48 | UserCanceledException happens only when the attempt the loop stops at was refused and answered with null |
| `Tasks.OtherFailurePropagates` | messagemanager-core/src/main/java/nl/queuemanager/core/tasks/ConnectToBrokerTask.java:42-45 | a non-security failure on any attempt ends the task with that same error right after the failed connect. There is no getCredentials call after it and no write |
| `Tasks.RetriesWithoutLimit` | messagemanager-core/src/main/java/nl/queuemanager/core/tasks/ConnectToBrokerTask.java:40-50 | after k refusals, each answered with credentials, a successful connect ends the loop with the last answer's credentials. That takes exactly k+1 connect calls and k getCredentials calls, for every k |
| `Tasks.StalePasswordReplaced` | messagemanager-core/src/main/java/nl/queuemanager/core/tasks/ConnectToBrokerTask.java:37-56 | concrete run: stale stored password refused, new one entered and accepted. The store ends with the new credentials, and the three calls are in order |
| `Tasks.Description` | messagemanager-core/src/main/java/nl/queuemanager/core/tasks/ConnectToBrokerTask.java:59-61 | the description is the fixed prefix "Connecting to broker " followed by the broker's name |
| `Tasks.DescriptionDeterminesBroker` | messagemanager-core/src/main/java/nl/queuemanager/core/tasks/ConnectToBrokerTask.java:59-61 | two descriptions are equal exactly when the brokers' names are |
| `Tasks.CoreConfiguration.GetBrokerCredentials` | messagemanager-core/src/main/java/nl/queuemanager/core/tasks/ConnectToBrokerTask.java:38 | returns the stored credentials or null, and logs the read |
| `Tasks.CoreConfiguration.SetBrokerCredentials` | messagemanager-core/src/main/java/nl/queuemanager/core/tasks/ConnectToBrokerTask.java:54 | stores the credentials for the broker and logs the write |
| `Tasks.ScriptedDomain.ConnectToBroker` | messagemanager-core/src/main/java/nl/queuemanager/core/tasks/ConnectToBrokerTask.java:43 | answers with the next scripted outcome and logs the call with its credentials |
| `Tasks.ScriptedDomain.GetCredentials` | messagemanager-core/src/main/java/nl/queuemanager/core/tasks/ConnectToBrokerTask.java:46 | answers with the next scripted credentials or null, and logs the call with the previous credentials and the exception |
| `Tasks.ConnectToBrokerTask.constructor` | messagemanager-core/src/main/java/nl/queuemanager/core/tasks/ConnectToBrokerTask.java:24-34 | keeps the domain, configuration and broker it is given |
| `Tasks.ConnectToBrokerTask.Execute` | messagemanager-core/src/main/java/nl/queuemanager/core/tasks/ConnectToBrokerTask.java:37-56 | reads the stored credentials exactly once. Its result, the domain's calls, the configuration's writes and the final store are those of `Execution` for the scripts and store it started with |
| `Tasks.ConnectToBrokerTask.RetryUntilSettled` | messagemanager-core/src/main/java/nl/queuemanager/core/tasks/ConnectToBrokerTask.java:40-50 | the `while (true)` loop run from the given credentials ends as `Negotiate` says for the scripts it started with, and the domain sees exactly `Negotiate`'s calls, in order |
| `Tasks.RetryStep` | messagemanager-core/src/main/java/nl/queuemanager/core/tasks/ConnectToBrokerTask.java:42-49 | a refused attempt answered with credentials adds one connect and one getCredentials call, then the loop continues from the answer with the rest of both scripts |
| `TextSearch.Lower` | messagemanager-ui/src/main/java/nl/queuemanager/ui/util/JSearchableTextArea.java:166-170 | lower-casing keeps the length |
| `TextSearch.LowerIdempotent` | messagemanager-ui/src/main/java/nl/queuemanager/ui/util/JSearchableTextArea.java:175-178 | lower-casing the already lowered string changes nothing, so the wrap-around retry searches for the same string |
| `TextSearch.IndexOf` | messagemanager-ui/src/main/java/nl/queuemanager/ui/util/JSearchableTextArea.java:170-172 | for a non-empty needle, the result is the first occurrence at or after the start, or -1 exactly when there is none there |
| `TextSearch.FindMatch` | messagemanager-ui/src/main/java/nl/queuemanager/ui/util/JSearchableTextArea.java:164-181 | nothing for an empty pattern. Otherwise the first case-insensitive occurrence at or after max(start, 0). If there is none there and start > 0, the first occurrence from 0. Nothing when neither exists |
| `TextSearch.SelectionOf` | messagemanager-ui/src/main/java/nl/queuemanager/ui/util/JSearchableTextArea.java:174 | select keeps the selection inside the text and is exact for in-range bounds |
| `TextSearch.SelectedPart` | messagemanager-ui/src/main/java/nl/queuemanager/ui/util/JSearchableTextArea.java:101 | the selected text is null exactly when the selection is empty, and otherwise is the text between the selection's ends |
| `TextSearch.Searched` | messagemanager-ui/src/main/java/nl/queuemanager/ui/util/JSearchableTextArea.java:164-181 | for a non-empty search string with an occurrence found by `FindMatch` (first at or after max(start, 0), else first from 0 when start > 0), the selection covers that occurrence with the string's length. A null or empty string, or one with no occurrence, leaves the selection unchanged. Any new selection is a case-insensitive occurrence inside the text |
| `TextSearch.AfterKeyPressed` | messagemanager-ui/src/main/java/nl/queuemanager/ui/util/JSearchableTextArea.java:99-113 | F3 and Ctrl-F leave a selection inside the text |
| `TextSearch.AfterKeyTyped` | messagemanager-ui/src/main/java/nl/queuemanager/ui/util/JSearchableTextArea.java:119-142 | search-as-you-type leaves a selection inside the text |
| `TextSearch.IsResetChar` | messagemanager-ui/src/main/java/nl/queuemanager/ui/util/JSearchableTextArea.java:125-128 | the characters that restart the search are exactly backspace, delete, newline and escape; lower-casing leaves each of them unchanged |
| `TextSearch.FindAgainPattern` | messagemanager-ui/src/main/java/nl/queuemanager/ui/util/JSearchableTextArea.java:101-104 | F3 searches for the selected text when there is a selection, and for the dialog's answer otherwise |
| `TextSearch.TypedPattern` | messagemanager-ui/src/main/java/nl/queuemanager/ui/util/JSearchableTextArea.java:132-139 | the typed search string starts with the selected text (nothing when nothing is selected) and, unless the key is an action key, ends with the typed character, one longer than the selection |
| `TextSearch.SearchIgnoresCase` | messagemanager-ui/src/main/java/nl/queuemanager/ui/util/JSearchableTextArea.java:166-170 | two search strings that differ only in letter case select the same occurrence |
| `TextSearch.NoMatchLeavesSelection` | messagemanager-ui/src/main/java/nl/queuemanager/ui/util/JSearchableTextArea.java:173-179 | a string with no occurrence leaves the selection unchanged from any start position |
| `TextSearch.TypingExtendsMatch` | messagemanager-ui/src/main/java/nl/queuemanager/ui/util/JSearchableTextArea.java:132-141 | in a read-only area, when the selected text plus the typed character still occurs at the selection's start, the selection grows by one character |
| `TextSearch.ResetCharStartsOver` | messagemanager-ui/src/main/java/nl/queuemanager/ui/util/JSearchableTextArea.java:125-141 | backspace, delete, enter or escape reset the selection to (0,0), then the search starts from the top with that character alone. For an action key, or a character that does not occur in the text, the selection stays at (0,0); otherwise it covers the character's first occurrence |
| `TextSearch.EnterSelectsLineBreak` | messagemanager-ui/src/main/java/nl/queuemanager/ui/util/JSearchableTextArea.java:125-141 | Enter in a read-only area holding "a\nb" selects the line break at [1,2), whatever was selected before |
| `TextSearch.FindAgainStaysOnOccurrence` | messagemanager-ui/src/main/java/nl/queuemanager/ui/util/JSearchableTextArea.java:100-105 | F3 with a non-empty selection always leaves an occurrence of the selected text selected |
| `TextSearch.FindAgainSkipsAdjacentOccurrence` | messagemanager-ui/src/main/java/nl/queuemanager/ui/util/JSearchableTextArea.java:100-105 | as written, F3 in "abab" with "ab" selected at 0 re-selects 0, although "ab" occurs at 2 |
| `TextSearch.FindNext` | messagemanager-ui/src/main/java/nl/queuemanager/ui/util/JSearchableTextArea.java:100-105 | corrected F3: the same search string as `FindAgainPattern`, searched from the selection's end instead of one past it; the selection stays inside the text |
| `TextSearch.FindNextFindsNextOccurrence` | messagemanager-ui/src/main/java/nl/queuemanager/ui/util/JSearchableTextArea.java:100-105 | corrected F3 selects the first occurrence of the selected text at or after the selection's end |
| `SearchUi.SearchableTextArea.constructor` | messagemanager-ui/src/main/java/nl/queuemanager/ui/util/JSearchableTextArea.java:44-46 | a new area has search enabled and a listener registered |
| `SearchUi.SearchableTextArea.IsSearchEnabled` | messagemanager-ui/src/main/java/nl/queuemanager/ui/util/JSearchableTextArea.java:53-55 | while isSearchEnabled returns true, a key listener is registered. `SetSearchEnabled` states that it returns the last value set |
| `SearchUi.SearchableTextArea.SetSearchEnabled` | messagemanager-ui/src/main/java/nl/queuemanager/ui/util/JSearchableTextArea.java:53-75 | afterwards isSearchEnabled returns the given flag. Enabling registers the listener. Disabling removes no listener |
| `SearchUi.SearchableTextArea.Select` | messagemanager-ui/src/main/java/nl/queuemanager/ui/util/JSearchableTextArea.java:129 | the selection becomes the clamped range |
| `SearchUi.SearchableTextArea.SelectedText` | messagemanager-ui/src/main/java/nl/queuemanager/ui/util/JSearchableTextArea.java:101 | getSelectedText is null exactly when the selection is empty, and otherwise the text between the selection's ends |
| `SearchUi.SearchKeyAdapter.constructor` | messagemanager-ui/src/main/java/nl/queuemanager/ui/util/JSearchableTextArea.java:90-92 | the adapter works on the given area |
| `SearchUi.SearchKeyAdapter.KeyPressed` | messagemanager-ui/src/main/java/nl/queuemanager/ui/util/JSearchableTextArea.java:99-113 | leaves exactly the selection `AfterKeyPressed` gives for the old selection, key and dialog answer |
| `SearchUi.SearchKeyAdapter.FindAgain` | messagemanager-ui/src/main/java/nl/queuemanager/ui/util/JSearchableTextArea.java:100-106 | the F3 branch leaves exactly the selection `Searched` gives for `FindAgainPattern`, starting one past the old selection's end |
| `SearchUi.SearchKeyAdapter.KeyTyped` | messagemanager-ui/src/main/java/nl/queuemanager/ui/util/JSearchableTextArea.java:119-142 | leaves exactly the selection `AfterKeyTyped` gives, and on an editable area leaves it unchanged |
| `SearchUi.SearchKeyAdapter.TypeAhead` | messagemanager-ui/src/main/java/nl/queuemanager/ui/util/JSearchableTextArea.java:132-141 | the part of keyTyped after the reset leaves exactly the selection `Searched` gives for `TypedPattern` from the selection's start |
| `SearchUi.SearchKeyAdapter.Search` | messagemanager-ui/src/main/java/nl/queuemanager/ui/util/JSearchableTextArea.java:164-181 | the recursive search with its single retry from 0 leaves exactly the selection `Searched` gives |

## Findings

| source | as written | input that shows it | evidently intended | confidence | as-written member | corrected member |
|---|---|---|---|---|---|---|
| messagemanager-ui/src/main/java/nl/queuemanager/ui/util/JSearchableTextArea.java:105 | F3 searches from one past the selection's end, so an occurrence that starts exactly at the selection's end is skipped | text "abab" with "ab" selected at [0,2): F3 selects [0,2) again instead of [2,4) | search from the selection's end, finding the next occurrence | medium; not executed | `TextSearch.FindAgainSkipsAdjacentOccurrence` | `TextSearch.FindNextFindsNextOccurrence` |

`SearchKeyAdapter.KeyPressed` and `AfterKeyPressed` keep the start position as written, because they model the handler itself. `FindNext` is the corrected F3.

## Left out

- The task framework is not part of this model: the `Task` base class, the executor and its threads, event-bus publication and task cancellation.
- Runs of the unbounded loop that never end are represented only by their finite prefixes. Such a run is a user who keeps entering refused credentials forever. A run whose scripts run out ends as `Unfinished`.
- `Credentials`, the two exception types and the broker are opaque values. A broker's string form is modelled as its name.
- The configuration's storage format and how `getBrokerCredentials` finds an entry are not modelled. The store is a map from broker to credentials, and a missing entry reads as null.
- Key-event dispatch and the key-listener list are not modelled. Each `setSearchEnabled(true)` call registers another `SearchKeyAdapter`, and each registered adapter handles every key. The model keeps only whether one is registered.
- The "Find..." dialog is the `answer` parameter. Its default text, the selected text, is not modelled because it does not bound the answer.
- Lower-casing covers ASCII letters only. Java's locale-sensitive `toLowerCase` can change a string's length for some non-ASCII letters. The model's lower-casing preserves length, as the selection arithmetic assumes.
- The text area's text and editable flag are given to the constructor. Editing and `setEditable` are Swing behaviour outside the search.
- `TextSearch.AfterKeyPressed`: its own contract says only that the selection stays in the text. What the selection means is stated by `FindAgainStaysOnOccurrence`, `FindAgainSkipsAdjacentOccurrence` and the `Searched` contract, which pins the selection to `FindMatch`'s occurrence.
- `TextSearch.AfterKeyTyped`: its own contract says only that the selection stays in the text. What the selection means is stated by `TypingExtendsMatch`, `ResetCharStartsOver`, the `TypedPattern` contract and the `Searched` contract.
- `Main.java`, `ConnectionTabPanel.java`, `SonicMQQueue.java` and `module-info.java` are not part of this model. They hold wiring, UI glue and vendor delegation.
