# Very Simple Notes uploader, modelled in Dafny

An Obsidian plugin that exports the active note to a configured HTTP endpoint.
The user clicks the ribbon icon. The plugin builds a `Note` record (`name`,
`tags`, `content`, `group`). From the content it drops everything up to and
including the first tag header and trims the rest. It removes the first `#`
from every tag. It then opens a dialog asking for a
group label. On Submit the record goes to `uploadNote`, which POSTs it and shows
one of two notices depending on the status code. The endpoint URL is the
plugin's one setting. It is loaded by merging stored data over the default
`"url"` and saved after every edit in the settings tab.

All of it lives in `main.ts`. The model follows its parts:

- `wrappers.dfy` (`Wrappers`): `Option`, standing for `null`/`undefined`.
- `trim.dfy` (`StringTrim`): JavaScript's `String.prototype.trim`, with its
  whitespace set written out.
- `header.dfy` (`Header`): `extractContentAfterTags`. The unanchored search for
  `/---\n#[^\n]*\n\n([\s\S]*)/` is written as the leftmost scan the regular
  expression engine performs. `HeaderAt` is a declarative reading of one match,
  and the scan is proved to find the leftmost one.
- `note.dfy` (`Notes`): the `Note` record, tag normalisation
  (`tag.replace("#", "")` removes only the first `#`), and how the ribbon
  action assembles the record.
- `upload.dfy` (`Upload`): the status-to-notice decision of `uploadNote`.
- `modal.dfy` (`Dialog`): `UploadModal` as a class with `result`, `note`,
  `isOpen`, the rendered `view` and the log of `onSubmit` calls. `RunDialog`
  drives one dialog through a sequence of user events and is proved against
  the reference outcome `Submissions`.
- `plugin.dfy` (`Plugin`): `NoteUploaderPlugin` with its `settings` and the
  stored data, `loadSettings`, `saveSettings`, the settings tab's edit
  handler and the ribbon action.

Host services are plain inputs. `getActiveFile`, `cachedRead` and
`getFileCache` become an `Option<ActiveFile>`. The outcome of `fetch` becomes a
`Response`. The plugin's storage is the `store` field.

Behaviour of the code that is easy to miss:

- The pattern is not anchored, so `---` need not begin a line.
- A fence whose heading line is not followed by a blank line does not end the
  search. The engine moves on to the next position (`Header.ExampleLaterHeader`).
- Submit without editing the field sets `group` to `undefined`, not `null`.
  `GroupField` keeps the two apart.
- A failed `fetch` shows no notice, since the status check is never reached.

## Model

| member | source | states |
|---|---|---|
| StringTrim.SkipForward | main.ts:30 | the leading run that `trim` drops is all whitespace and ends at a non-whitespace character or at the end |
| StringTrim.SkipBackward | main.ts:30 | the trailing run that `trim` drops is all whitespace and starts after a non-whitespace character or at the kept start |
| StringTrim.Trim | main.ts:30 | `trim()` never lengthens its input and leaves no whitespace at either end |
| StringTrim.TrimSplits | main.ts:30 | the result is the input between its leading and its trailing whitespace |
| StringTrim.TrimUnique | main.ts:30 | for any split into whitespace, a core without whitespace at its ends, and whitespace, `trim` returns that core |
| StringTrim.TrimIdempotent | main.ts:30 | trimming twice equals trimming once |
| Header.FenceAt | main.ts:26 | the five characters `---\n#` occur at the position |
| Header.LineEnd | main.ts:26 | `[^\n]*` stops at the first line feed at or after the position, or at the end of the text |
| Header.MatchAt | main.ts:26-27 | the attempt at one position succeeds exactly when the pattern matches there, and gives the one heading-line end |
| Header.FindHeader | main.ts:26-27 | the unanchored search returns a match, and no match starts earlier |
| Header.Capture | main.ts:26-29 | the capture group exists exactly when the pattern occurs, and it is the text after the blank line of a match |
| Header.CaptureLeftmost | main.ts:26-29 | the capture group belongs to the leftmost match |
| Header.ExtractContentAfterTags | main.ts:25-34 | never longer than its input; without a header the text is returned exactly; after a match the result has no whitespace at either end |
| Header.ExtractLeftmost | main.ts:26-30 | with the leftmost header at `i`, whose heading line ends at `j`, the result is `trim` of everything after the blank line; everything before and including the header is dropped |
| Header.ExtractNoHeader | main.ts:29-33 | with no header anywhere, the text comes back unchanged and untrimmed |
| Header.ExampleWithHeader | main.ts:25-34 | `"---\n#tag\n\nHello world"` gives `"Hello world"` |
| Header.ExampleLaterHeader | main.ts:25-34 | a fence without a blank line after its heading is skipped and the later header matches |
| Header.ExampleWithoutHeader | main.ts:25-34 | `"No header here"` is returned unchanged |
| Notes.ReplaceFirst | main.ts:76 | a string without the character is unchanged; otherwise exactly one character goes |
| Notes.ReplaceFirstAt | main.ts:76 | the removed character is the first occurrence; the rest of the string is kept in order |
| Notes.ReplaceFirstRemovesOne | main.ts:76 | the multiset of characters loses exactly one `c` |
| Notes.NormaliseTags | main.ts:73-77 | the tag list keeps its length and order; each entry is its tag with the first `#` removed |
| Notes.NormalisedTagShape | main.ts:76 | a tag without `#` is exported unchanged; a tag with one loses exactly one `#` |
| Notes.ExampleTags | main.ts:76 | `["#work", "#draft"]` becomes `["work", "draft"]` |
| Notes.AssembleNote | main.ts:65-85 | no active file gives `{name: null, tags: [], content: null, group: null}`; otherwise name, stripped content and normalised tags, and no tag metadata gives `[]`; `group` is always `null` |
| Notes.ExampleNoActiveFile | main.ts:65-85 | the record without an active file |
| Upload.NoticeFor | main.ts:46-55 | status 200 gives the success notice; every other status gives the failure notice; a rejected request gives none |
| Upload.ExactlyOneNotice | main.ts:50-54 | every status gives exactly one of the two notices |
| Dialog.GroupOf | main.ts:149 | an unset `result` becomes `undefined`; an edited value becomes that label |
| Dialog.UploadModal.constructor | main.ts:126-130 | a new dialog holds the record, is closed, has no pending value and has submitted nothing |
| Dialog.UploadModal.Open | main.ts:132-153 | opening renders the heading, the Group field and the Submit button |
| Dialog.UploadModal.Change | main.ts:137-141 | every edit replaces the pending value, so the last one wins |
| Dialog.UploadModal.Submit | main.ts:143-151 | closes and clears the view; sets `group` from the pending value and leaves the other fields alone; calls `onSubmit` once with that record |
| Dialog.UploadModal.Close | main.ts:155-158 | closing empties the view and calls nothing |
| Dialog.FirstClose | main.ts:143-158 | the first event that is not an edit |
| Dialog.LastEdit | main.ts:138-140 | the value of an edit with no edit after it, absent only when there was none |
| Dialog.SubmitTakesLastEdit | main.ts:138-150 | when Submit is the first non-edit event, `onSubmit` gets the record once with the group set to the edit just before Submit, or `undefined` with no edit |
| Dialog.LaterEventsIgnored | main.ts:147-158 | once the dialog has closed, further events change nothing |
| Dialog.SubmitAtMostOnce | main.ts:147-158 | `onSubmit` runs at most once, and exactly once when Submit comes before any dismissal |
| Dialog.RunDialog | main.ts:121-159 | a dialog driven by a sequence of events calls `onSubmit` exactly as `Submissions` says: once with the last edit as group if Submit comes first, otherwise never |
| Plugin.MergeSettings | main.ts:14-16 | a stored `url` overrides the default; without one the settings are the defaults |
| Plugin.SaveLoadRoundTrip | main.ts:108-118 | loading what was saved gives back the same settings |
| Plugin.NoteUploaderPlugin.constructor | main.ts:36-37 | a plugin over the given storage, with default settings until they are loaded |
| Plugin.NoteUploaderPlugin.LoadSettings | main.ts:108-114 | the settings become the stored data merged over the defaults |
| Plugin.NoteUploaderPlugin.SaveSettings | main.ts:116-118 | storage holds the current settings |
| Plugin.NoteUploaderPlugin.EditUrl | main.ts:174-178 | an edit sets the url and stores it immediately |
| Plugin.NoteUploaderPlugin.UploadActiveFile | main.ts:64-88 | the ribbon action opens a fresh, rendered dialog on the assembled record, with `group` null, no pending value and nothing submitted |
| Plugin.EditThenReload | main.ts:108-118 | a url edited in the settings tab is the url after the plugin loads again |

## Left out

- The HTTP request in `uploadNote` (main.ts:39-45) is left out: `fetch`, the POST with its JSON content type, `JSON.stringify` and the promise chain. It is network I/O. Only the notice decision is modelled, with the response as an input.
- `JSON.stringify` drops a field whose value is `undefined`. A record submitted without editing the Group field is therefore sent without a `group` key. The model keeps `Undefined` apart from `Null` but does not model serialisation.
- The Obsidian host APIs are not modelled: `getActiveFile`, `cachedRead`, `getFileCache`, `Notice`, `Setting`, `addRibbonIcon`, `addSettingTab` and the `Modal` base class. Their results are plain inputs. The rendered form is a list of `Element` values.
- `SettingTab.display` (main.ts:169-180) is left out except for its change handler (`EditUrl`). It is rendering: the field shows the current url.
- The DOM click logger and the five-minute interval (main.ts:94-103) are template code with no behaviour.
- `loadData` and `saveData` are asynchronous storage. Storage is the `store` field. Stored data is modelled as an object whose `url` key is a string or missing. Extra keys and non-string values are not modelled.
- Plugin.NoteUploaderPlugin.constructor: the source leaves `settings` undefined until `loadSettings` runs. The model starts it at the defaults.
- Strings are sequences of Unicode scalar values, not UTF-16 code units, so a lone surrogate cannot be expressed.
- Dialog.UploadModal.Submit: in the source, `note` is the object the ribbon action built and `onSubmit` receives that same object. The model holds the record as a value. No other code keeps a reference to it, so nothing observable is lost. `onSubmit` is modelled by its call log `submitted`; the upload it starts is not.
