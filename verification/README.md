# Verification of the Riseonly desktop client's core

A Dafny model of the parts of the client whose behaviour is decided by their own code rather than
by an operating system: what they promise is proved here for every input and every run.

| module files | models |
|---|---|
| `Routes`, `PaneLayouts`, `NavigationModel`, `NavigationStore`, `NavigationProofs` | the per-section navigation stacks, their bounded forward history, and the column layout |
| `ActiveScreensModel`, `ActiveScreens`, `ActiveScreensProofs`, `ShellScreens` | the registry of screens on show, its refresh claims, and how the shell feeds it |
| `DesktopEntry`, `WindowsCommandLine`, `Characters` | what launch-at-login writes, with the readers that must undo it |
| `MediaShare`, `PositionPublishing` | the now-playing state with its wake-up protocol, and when a position is sent again |
| `UpdateDecision`, `InstallPaths`, `InstallSwap` | which release is offered, where it is staged, and the swap by renames |
| `Formatting`, `FormattingProofs`, `SpecifierRoundTrip`, `NamedFormatting`, `Texts`, `Decimal` | the two template dialects, on UTF-8 bytes |
| `LanguageTags`, `CivilDates` | language tag matching; timestamps and the calendar |
| `EngineGuards`, `RequestIds` | the guards around an account's database; request identifiers |
| `Basics`, `Options` | shared small definitions |

Objects the client updates in place are classes here. Each of their methods is proved to do what a
function on values says, and the promises are proved about those functions, so that they can speak
of whole runs. Loops of the client are loops here, proved against recursive or declarative
specifications. System calls that may fail, clocks and the scheduling of threads are parameters or
steps that may come in any order.

`dafny verify dfyconfig.toml` checks everything.

## What the proofs found

Most promises hold as documented. Where one holds only under a condition, the condition is proved
to be exact, with a run or an input that shows what happens without it:

- More than sixteen `back`s are not undone by as many `forward`s (`BackThenForwardRestoresIff`).
- A key can be granted again in one cycle once 128 other keys have been (`ClaimGrantedIff`).
- A registry asked to show more than sixty-four screens does not, and keeps changing when asked
  again (`SyncShowsExactlyVisibleIff`, `SyncIsIdempotentIff`).
- A topic with a colon in one of its identifiers shares its data with another (`KeyIsItsOwnIff`).
- A launcher that splits `Exec` on more white space than the writer quotes loses arguments
  (`ExecRoundTripsIff`).
- On Windows an executable that has to be quoted and ends in a backslash, or need not and holds a
  control character, does not read back as the path it is (`SystemRoundTripIff`).
- Two waiters on one `MediaShare` lose a wake-up (`NobodyIsLostIff`).
- After a swap that stopped between its two renames, the next swap first deletes the only
  set-aside copy of the application while none is installed (`KeepsACopyIffInstalled`,
  `InterruptedSwapThenFailedRetry`).
- An installation path without a file name and a download called `previous` are given the same
  place (`DisplacedIsApartIff`).
- The order of the feed matters when two unbeaten releases differ (`UpdateDecision.OrderNeverMattersIff`).
- A database can be shared with a store thread that no close need wait for: an engine dropped
  without being closed leaves one, and so does closing the store through another handle
  (`SharingNeedsStrayIff`, `DropUnclosedCanShareIff`, `CloseElsewhereCanShare`).
- A timestamp on a day that does not exist is out of order with some real one, unless it is the
  midnight that ends its month (`SortsInTimeIff`).
- A negative number that is zero-padded gets its zeros before its sign (`ZeroPaddedReadsBackIff`).
- The hysteresis only works while it is no wider than the aside (`NeverStrobesIff`).
- Past 44 bits of milliseconds identifiers can go back or repeat (`IdRisesIff`, and
  `WrappedIdsGoBack` for one pair that does).
- Casing a language tag twice is not casing it once when a letter such as ß makes a subtag longer
  (`CanonicalCaseIsStableIff`, `SharpSIsNotStable`).
- The order of a template's bindings matters when a placeholder has two values
  (`NamedFormatting.OrderNeverMattersIff`).

## Model

| member | source | states |
|---|---|---|
| `Routes.TabAt` | crates/rise-navigation/src/route.rs:54-60 | Presentation order and tabs correspond one to one, so every section has its own entry. |
| `PaneLayouts.ColumnsPartitionSlots` | crates/rise-navigation/src/pane_layout.rs:49-63 | In every layout each stack belongs to exactly one drawn column: narrowing merges columns and hides no stack. |
| `PaneLayouts.ResizeIsIdempotent` | crates/rise-navigation/src/pane_layout.rs:110-129 | Resizing twice to one width equals resizing once. |
| `PaneLayouts.FlapIsWide` | crates/rise-navigation/src/pane_layout.rs:110-129 | Over any drag, a layout change and the next change that undoes it happen at widths further apart than the hysteresis, if the aside is at least as wide as it. |
| `PaneLayouts.NeverStrobesIff` | crates/rise-navigation/src/pane_layout.rs:92-129 | That protection holds over every drag exactly when the hysteresis does not exceed the aside's width. |
| `PaneLayouts.ResizeShowsWhatFits` | crates/rise-navigation/src/pane_layout.rs:100-129 | A resize shows at least the columns the width affords and at most one more, the extra one only while the width is within the hysteresis of affording it. |
| `PaneLayouts.ColumnsFitTheirWidths` | crates/rise-navigation/src/pane_layout.rs:92-129 | By the column widths alone: after a resize every number of columns that fits is reached, none is shown that is short of its need by more than the hysteresis, and none is added before it fits. |
| `NavigationModel.Latest` | crates/rise-navigation/src/store.rs:132-140 | The slot chosen is one of those to keep with the greatest key, and there is none exactly when nothing is to be kept. |
| `NavigationStores.NavigationStore.constructor` | crates/rise-navigation/src/store.rs:33-43 | A new store is the feed with only its root. |
| `NavigationStores.NavigationStore.SelectTab` | crates/rise-navigation/src/store.rs:53-65 | Updates the fields in place to the state the specification of selecting gives, whatever was held before. |
| `NavigationStores.NavigationStore.WindowResized` | crates/rise-navigation/src/store.rs:67-77 | Reports a change exactly when the layout changed, and changes nothing else. |
| `NavigationStores.NavigationStore.Push` | crates/rise-navigation/src/store.rs:79-94 | Updates the fields in place to the state the specification of pushing gives. |
| `NavigationStores.NavigationStore.Back` | crates/rise-navigation/src/store.rs:96-109 | State and returned route are those of the specification of closing the most recent closable screen. |
| `NavigationStores.NavigationStore.GoForward` | crates/rise-navigation/src/store.rs:111-116 | State and returned route are those of the specification of reopening. |
| `NavigationStores.NavigationStore.ResetToRoot` | crates/rise-navigation/src/store.rs:174-183 | Unwinds all seven sections in place. |
| `NavigationProofs.BackConserves` | crates/rise-navigation/src/store.rs:96-109 | Each stack followed by its future is unchanged by `back`, except that a full history loses its outermost entry. |
| `NavigationProofs.ForwardConserves` | crates/rise-navigation/src/store.rs:111-116 | `forward` changes no stack-with-future at all. |
| `NavigationProofs.ForwardUndoesBack` | crates/rise-navigation/src/store.rs:98-116 | After n backs, n up to sixteen, n forwards give back the very stacks, and the history is the innermost part of the old one. |
| `NavigationProofs.BackThenForwardRestoresIff` | crates/rise-navigation/src/store.rs:8-9 | In every valid state n successful backs are undone by n forwards exactly when n is at most sixteen. |
| `NavigationProofs.EveryRunKeepsInv` | crates/rise-navigation/src/store.rs:19-23 | In every reachable state each visited section's primary stack has the section at its bottom, every screen lies in the stack it declares, no screen follows itself in a stack or its future, and stacks in use have different recencies. |
| `NavigationProofs.FocusIsNewest` | crates/rise-navigation/src/store.rs:130-162 | In every layout the focused stack is the one reached for last among all stacks in use. |
| `NavigationProofs.LayoutNeverMovesFocus` | crates/rise-navigation/src/store.rs:154-162 | No change of layout changes which screen is focused. |
| `NavigationProofs.ResizeChangesLayoutOnly` | crates/rise-navigation/src/store.rs:67-77 | A resize changes the layout and nothing else, the focus neither. |
| `NavigationProofs.BackClosesFocusedIff` | crates/rise-navigation/src/store.rs:199-211 | `back` closes the focused screen exactly when that is not the section itself. |
| `NavigationProofs.BackClosesNewestClosable` | crates/rise-navigation/src/store.rs:96-109 | `back` closes something exactly when some stack may lose its top, and then the top of the one of them reached for last, also when the focus is on the section itself. |
| `NavigationProofs.ColumnDrawsNewest` | crates/rise-navigation/src/store.rs:130-140 | In every layout a column draws, of the stacks merged into it, the one reached for last. |
| `NavigationProofs.PushThenBack` | crates/rise-navigation/src/store.rs:79-109 | Pushing focuses the screen in every layout; `back` closes it and restores the stacks; pushing the screen on top again changes no stack and keeps the history. |
| `NavigationProofs.ForwardThenBack` | crates/rise-navigation/src/store.rs:111-116 | `forward` focuses the screen it brings back, whatever the layout and whatever was reached for meanwhile, and `back` closes it again. |
| `NavigationProofs.PushedSectionIsSelected` | crates/rise-navigation/src/store.rs:53-84 | Pushing a section selects it: another one as it was left, or at its root if it was never visited; the current one goes back to its root. |
| `NavigationProofs.OpenedShowsFeed` | crates/rise-navigation/src/store.rs:33-43 | A new store shows the feed in every layout, with nowhere to go back or forward to. |
| `NavigationProofs.OtherSectionsAreKept` | crates/rise-navigation/src/store.rs:19-23 | Whatever is done while other sections are selected, short of an account reset, leaves a section's stacks, recency and history alone. |
| `NavigationProofs.SectionSurvivesSwitch` | crates/rise-navigation/src/store.rs:53-65 | Leaving a section, doing anything elsewhere and coming back finds it as it was. |
| `NavigationProofs.ReselectReturnsToRoot` | crates/rise-navigation/src/store.rs:53-61 | Reselecting a section leaves its root alone in the primary column, the other columns as they were, and no history. |
| `NavigationProofs.ResetLeavesOnlyRoots` | crates/rise-navigation/src/store.rs:174-183 | After the account transition every section shows only its root, with nothing to go back or forward to, and the selected section and the layout are the same. |
| `ActiveScreensModel.TopmostIn` | app/src/core/active_screens.rs:402-409 | The index found is a lease of the column that none of the column is above; there is none exactly when the column is empty. |
| `ActiveScreensModel.IndexOf` | app/src/core/active_screens.rs:398-400 | The first lease of the owner, or none if it has none. |
| `ActiveScreensModel.Oldest` | app/src/core/active_screens.rs:380-386 | No lease appeared before the one found. |
| `ActiveScreensRegistry.ActiveScreens.Register` | app/src/core/active_screens.rs:215-223 | Updates the registry as specified and returns the lease, with the key and column asked for. |
| `ActiveScreensRegistry.ActiveScreens.Release` | app/src/core/active_screens.rs:225-228 | Drops the owner's lease and touches neither claims nor cycle. |
| `ActiveScreensRegistry.ActiveScreens.SyncVisible` | app/src/core/active_screens.rs:230-249 | The two loops compute the specified synchronisation in place. |
| `ActiveScreensRegistry.ActiveScreens.BeginCycle` | app/src/core/active_screens.rs:286-291 | Starts the next cycle with its reason and an empty claim record. |
| `ActiveScreensRegistry.ActiveScreens.ClaimRefresh` | app/src/core/active_screens.rs:293-313 | The eviction loop leaves the specified record, and the grant is the specified one. |
| `ActiveScreensRegistry.ActiveScreens.NoteRevision` | app/src/core/active_screens.rs:331-338 | Updates exactly the leases of the key. |
| `ActiveScreensRegistry.ActiveScreens.InsertOrUpdate` | app/src/core/active_screens.rs:340-378 | The eviction loop and the update leave the specified leases. |
| `ActiveScreensProofs.EveryRunKeepsInv` | app/src/core/active_screens.rs:185-192 | In every reachable state there are at most 64 leases, one per owner, in order of appearance, and at most 128 claims, none twice. |
| `ActiveScreensProofs.NewcomerIsTopmost` | app/src/core/active_screens.rs:340-396 | A first registration is on top of its column, and evicts the lease that appeared first if and only if there was no room. |
| `ActiveScreensProofs.ReregisteringKeepsLease` | app/src/core/active_screens.rs:346-357 | Registering again keeps the lease and all others; a screen that changes column comes out on top there, one that does not keeps its place. |
| `ActiveScreensProofs.ReleaseDropsOnlyTheOwners` | app/src/core/active_screens.rs:225-228 | Releasing takes away exactly the owner's lease, and no claim. |
| `ActiveScreensProofs.ClaimedIsLastGrants` | app/src/core/active_screens.rs:293-313 | Over any run within a cycle the claim record is exactly the last 128 grants, however leases come, go and move. |
| `ActiveScreensProofs.GrantsOfOneKeyAreFarApart` | app/src/core/active_screens.rs:225-249 | Within a cycle two grants of one key have at least 128 grants between them, under any rearrangement. |
| `ActiveScreensProofs.ClaimGrantedIff` | app/src/core/active_screens.rs:293-313 | After any run within a cycle a claim is granted exactly to a screen that may refresh, for a key not among the last 128 granted. |
| `ActiveScreensProofs.CycleIsKept` | app/src/core/active_screens.rs:225-249 | Over any run without a new cycle the cycle and its reason stay: no change of visibility starts one. |
| `ActiveScreensProofs.NewCycleRearms` | app/src/core/active_screens.rs:286-313 | In a new cycle a claim is granted exactly to a screen that may refresh, carries the new cycle and reason, and bars the key for everyone. |
| `ActiveScreensProofs.EligibleIff` | app/src/core/active_screens.rs:276-284 | A screen may refresh exactly when it is the topmost overlay or, with none, topmost in its column. |
| `ActiveScreensProofs.OneEligiblePerColumn` | app/src/core/active_screens.rs:276-284 | Without an overlay each occupied column has exactly one screen that may refresh. |
| `ActiveScreensProofs.OneEligibleUnderOverlay` | app/src/core/active_screens.rs:276-284 | With an overlay exactly one screen of the whole window may, and it is an overlay. |
| `ActiveScreensProofs.FocusedIsEligible` | app/src/core/active_screens.rs:263-284 | Some screen is focused exactly when any is leased, and it may refresh. |
| `ActiveScreensProofs.FocusIsRightmost` | app/src/core/active_screens.rs:263-274 | The focused screen is in the rightmost column that has any, an overlay before all, and on top of it. |
| `ActiveScreensProofs.SyncShowsExactlyVisibleIff` | app/src/core/active_screens.rs:230-238 | After a synchronisation the leases are exactly the visible screens if and only if those are at most 64. |
| `ActiveScreensProofs.SurvivorsKeepTheirLease` | app/src/core/active_screens.rs:230-249 | A screen that stays visible keeps its key, its time of appearance and its revision; only its place is new. |
| `ActiveScreensProofs.NewcomersKeepTheirOwnKey` | app/src/core/active_screens.rs:230-238 | A screen that becomes visible is leased under its own resource key, with no revision seen yet. |
| `ActiveScreensProofs.SyncIsIdempotentIff` | app/src/core/active_screens.rs:230-249 | Synchronising again with the same screens changes nothing exactly when those are at most 64. |
| `ActiveScreensProofs.LastListedIsTopmost` | app/src/core/active_screens.rs:240-248 | The last screen listed for a column is the topmost of it. |
| `ActiveScreensProofs.NotedRevisionReachesGrants` | app/src/core/active_screens.rs:331-338 | A noted revision is what later grants of a leased key carry, unless a newer one is known; other keys are untouched. |
| `ActiveScreensProofs.EveryLeaseOfKeyNotes` | app/src/core/active_screens.rs:331-338 | Every lease of the key remembers the greater revision; no other lease is touched. |
| `ActiveScreensProofs.GrantCarriesNewest` | app/src/core/active_screens.rs:293-338 | A grant of a leased key after a note carries the cycle, its reason, the key and the newest revision known. |
| `ActiveScreensProofs.SeenIsGreatest` | app/src/core/active_screens.rs:415-423 | What has been seen of a key is the greatest revision that any lease of it has seen. |
| `ShellScreens.NamesTellSlots` | crates/rise-navigation/src/route.rs:80-117 | Screens of different stacks never share a screen identifier. |
| `ShellScreens.NamesTellDestinations` | crates/rise-navigation/src/route.rs:81-93 | No two destinations share a screen identifier. |
| `ShellScreens.KeyIsItsOwnIff` | crates/rise-navigation/src/route.rs:95-108 | A screen shares its resource key with no other exactly when it is not a topic with a colon in one of its identifiers. |
| `ShellScreens.HandedOverIsProper` | app/src/app/root_view.rs:393-414 | In every reachable navigation state the shell hands over different screens, one per column from left to right, the palette alone in the overlay's and there exactly when it is open. |
| `ShellScreens.EveryColumnIsHandedOver` | app/src/app/root_view.rs:393-414 | Every column that draws anything hands over the screen it draws, under its name and its resource key. |
| `ShellScreens.WhoMayRefresh` | app/src/app/root_view.rs:393-414 | Exactly the screens handed over are leased; each of them may refresh while the palette is closed, the palette alone while it is open. |
| `ShellScreens.LastHandedOverIsFocused` | app/src/app/root_view.rs:393-414 | The registry's focused screen is the palette while it is open, and otherwise the rightmost column's. |
| `ShellScreens.DrawnIsLeasedUnderItsRoute` | app/src/app/root_view.rs:393-414 | A screen that comes into view is leased under the resource key of its route. |
| `DesktopEntry.QuoteExecArgument` | crates/rise-platform/src/autostart.rs:191-219 | The loop writes the specified quoting of an argument. |
| `DesktopEntry.EscapeDesktopValue` | crates/rise-platform/src/autostart.rs:221-237 | The loop writes the specified escaping of a value. |
| `DesktopEntry.RenderExecValue` | crates/rise-platform/src/autostart.rs:177-189 | Quotes, joins and then escapes the executable and all arguments. |
| `DesktopEntry.DesktopEntryIsEnabled` | crates/rise-platform/src/autostart.rs:269-289 | True exactly when no line of the entry switches it off. |
| `DesktopEntry.SwitchesOffIff` | crates/rise-platform/src/autostart.rs:269-289 | `Hidden` and `X-GNOME-Autostart-enabled` switch an entry off exactly with the value true and false, in any case and with any blanks around key and value. |
| `DesktopEntry.RewrittenEntryIsOff` | crates/rise-platform/src/autostart.rs:265-289 | An entry with either line anywhere in it reads as off, with line feeds or with carriage returns before them. |
| `DesktopEntry.UnescapedOfEscaped` | crates/rise-platform/src/autostart.rs:221-237 | Undoing the file format's escapes gives back any value. |
| `DesktopEntry.SplitQuotedArguments` | crates/rise-platform/src/autostart.rs:158-219 | Splitting on quotes and collapsing doubled percent signs gives back any argument list, empty arguments included. |
| `DesktopEntry.ExecRoundTripsIff` | crates/rise-platform/src/autostart.rs:158-219 | Every executable and argument list reads back exactly, for precisely the launchers whose separators are characters the writer quotes. |
| `DesktopEntry.EntryHasItsLines` | crates/rise-platform/src/autostart.rs:160-175 | Whatever the name, executable and arguments, the entry has exactly its seven lines. |
| `DesktopEntry.EntryReadsBack` | crates/rise-platform/src/autostart.rs:160-175 | Every rendered entry has one `Exec` line, which starts the configured command, a name that reads back, and reads as enabled. |
| `WindowsCommandLine.QuoteWindowsArgument` | crates/rise-platform/src/autostart.rs:353-382 | The loop with its pending backslashes writes the specified quoting. |
| `WindowsCommandLine.WindowsRunCommand` | crates/rise-platform/src/autostart.rs:340-351 | The command is the quoted executable and arguments joined by blanks. |
| `WindowsCommandLine.RunCommandRoundTrips` | crates/rise-platform/src/autostart.rs:340-386 | The argument rule of `CommandLineToArgvW`, for every token, reads back exactly the list that was written, for every list. |
| `WindowsCommandLine.SystemRoundTripIff` | crates/rise-platform/src/autostart.rs:340-386 | With the system's own rule for the first token, in which nothing is escaped, every argument list is read back exactly for the executables without quotes that either need quoting and do not end in a backslash, or need none and hold no control character. |
| `MediaShareModel.MediaShare.SetAttached` | crates/rise-platform/src/media_keys.rs:620-630 | One critical section: the new state, and the waker to wake after it. |
| `MediaShareModel.MediaShare.Publish` | crates/rise-platform/src/media_keys.rs:645-661 | One critical section; the track ordinal moves exactly when another song starts. |
| `MediaShareModel.MediaShare.SetState` | crates/rise-platform/src/media_keys.rs:663-673 | One critical section; returns the track that is loaded. |
| `MediaShareModel.MediaShare.Advance` | crates/rise-platform/src/media_keys.rs:675-688 | One critical section; without a track nothing changes and nobody is woken. |
| `MediaShareModel.MediaShare.Poll` | crates/rise-platform/src/media_keys.rs:704-716 | Pending, with the waker registered, exactly when the generation is the one seen. |
| `MediaShareModel.OnlyWaiterIsNeverLost` | crates/rise-platform/src/media_keys.rs:620-716 | Over every interleaving of changes, delayed wakes and polls, a parked waiter is registered with nothing missed, or its wake is on the way. |
| `MediaShareModel.QuietMeansUpToDate` | crates/rise-platform/src/media_keys.rs:691-716 | With no wake in flight a parked waiter has seen the newest generation. |
| `MediaShareModel.BehindIsResumed` | crates/rise-platform/src/media_keys.rs:691-716 | A waiter that is behind resolves with the newest generation once the wake already in flight arrives. |
| `MediaShareModel.LostStaysLost` | crates/rise-platform/src/media_keys.rs:558-559 | A waiter whose waker was replaced is woken by no later change. |
| `MediaShareModel.SecondWaiterDisplacesFirst` | crates/rise-platform/src/media_keys.rs:640-716 | Two waiters of one state: both park, the second in the only slot, and after the next change nothing will wake the first, whatever either had seen. |
| `MediaShareModel.NobodyIsLostIff` | crates/rise-platform/src/media_keys.rs:620-716 | Over all interleavings of all waiters nobody is ever left behind exactly when at most one waiter uses the state. |
| `MediaShareModel.GenerationTellsEveryChange` | crates/rise-platform/src/media_keys.rs:545-546 | Equal generations mean that nothing changed in between. |
| `MediaShareModel.LastWordIsHeld` | crates/rise-platform/src/media_keys.rs:620-688 | Over any changes, what is held is what the last change that spoke of it said: the attachment, the state, the track, and where it is. |
| `MediaShareModel.OrdinalNamesOneSong` | crates/rise-platform/src/media_keys.rs:645-661 | Over any changes the ordinal never goes back, and as long as it stays the same song is loaded. |
| `MediaShareModel.OrdinalStaysWithSong` | crates/rise-platform/src/media_keys.rs:645-661 | As long as one song goes on, published again, paused or moved, its ordinal stays and a seek for it is accepted. |
| `MediaShareModel.SameTrackIff` | crates/rise-platform/src/media_keys.rs:182-187 | Two tracks are the same exactly when they differ at most in position and rate. |
| `MediaShareModel.StaleSeekIsRefused` | crates/rise-platform/src/media_keys.rs:595-602 | A path published for one song is accepted later only while that song is loaded. |
| `Decimal.DigitsHaveTheirValue` | crates/rise-platform/src/media_keys.rs:485-489 | A number's decimal text has that value, so ordinals and path names correspond one to one. |
| `PositionPublishing.PositionPublisher.ShouldPublish` | crates/rise-platform/src/media_keys.rs:443-454 | Answers as the predicate says and remembers exactly the reports it publishes. |
| `PositionPublishing.PositionPublisher.Invalidate` | crates/rise-platform/src/media_keys.rs:456-460 | Forgets what was published. |
| `PositionPublishing.AlwaysWithinTolerance` | crates/rise-platform/src/media_keys.rs:399-454 | After any reports and invalidations the system's extrapolated position is within the tolerance of the last report, and so is the rate. |
| `PositionPublishing.ExtrapolationIsPlayback` | crates/rise-platform/src/media_keys.rs:385-397 | The extrapolated position moves at the reported rate from the reported position, never past the start of the track and not before the report. |
| `PositionPublishing.PublishesAreFarApart` | crates/rise-platform/src/media_keys.rs:399-454 | If the real speed is off the declared one by at most a drift, consecutive publishes are so far apart that the drift between them exceeds the tolerance. |
| `PositionPublishing.SteadyPlaybackPublishesOnce` | crates/rise-platform/src/media_keys.rs:399-420 | Playback without drift is published exactly once, however long it goes on. |
| `UpdateDecision.Decide` | crates/rise-platform/src/updater.rs:403-494 | The one pass over the feed finds the decision the documented precedence describes. |
| `UpdateDecision.OfferIsAnUpgrade` | crates/rise-platform/src/updater.rs:403-407 | An offer is a release of the feed with its own artifact and notes, strictly newer and on a channel taken, and there is one exactly when the feed has an installable release. |
| `UpdateDecision.VersionsAreNumbers` | crates/rise-platform/src/updater.rs:37-47 | Versions are ordered as numbers of three digits: major, then minor, then patch. |
| `UpdateDecision.OfferRespectsChannels` | crates/rise-platform/src/updater.rs:403-517 | A stable installation is never offered a beta, a beta one takes both; the offer is the newest there is, and a beta only if its version has no stable build to install. |
| `UpdateDecision.RefusalSaysWhy` | crates/rise-platform/src/updater.rs:403-494 | The reason for no offer is, in this order, a newer build without the target, a newer beta for a stable installation, being ahead, being level, and an empty feed, each exactly when the feed has it. |
| `UpdateDecision.RefusalNamesNewest` | crates/rise-platform/src/updater.rs:403-494 | The version named in a refusal is the newest of what it speaks of. |
| `UpdateDecision.SameDecision` | crates/rise-platform/src/updater.rs:403-494 | The described decision is unique, and the same for any feed with the same releases whose unbeaten releases agree. |
| `UpdateDecision.OrderNeverMattersIff` | crates/rise-platform/src/updater.rs:443-453 | The decision is independent of the feed's order exactly when the unbeaten releases agree on what is to be downloaded, as they do when each version is listed once per channel. |
| `InstallPaths.StagedNameIsPlain` | crates/rise-platform/src/updater.rs:792-814 | For every URL and version the staged file name is visible, at most 128 printable characters, none of them a separator or reserved. |
| `InstallPaths.PlainNameIsKept` | crates/rise-platform/src/updater.rs:796-805 | A plain last segment of the URL is the staged name, whatever the query and fragment. |
| `InstallPaths.MadeUpNamesTellVersions` | crates/rise-platform/src/updater.rs:805-814 | Without a usable name in the feed, downloads of different versions get different names. |
| `InstallPaths.DisplacedIsApartIff` | crates/rise-platform/src/updater.rs:768-821 | The old copy is kept beside the installed one, never at its path, and at the staged path only for an unnamed installation and a download called `previous`. |
| `InstallSwap.Disk.RemoveAny` | crates/rise-platform/src/updater.rs:936-943 | Passes through the specified states and reports success only if nothing is left at the path. |
| `InstallSwap.Disk.SwapInPlace` | crates/rise-platform/src/updater.rs:908-934 | Runs through exactly the specified states under every pattern of faults. |
| `InstallSwap.OldCopySurvives` | crates/rise-platform/src/updater.rs:908-934 | In every state of a swap the old copy is whole at one of its two places, or the new one is installed. |
| `InstallSwap.DoneMeansInstalled` | crates/rise-platform/src/updater.rs:922-926 | Success means that the staged copy is the installed one, that the old copy is gone if the cleanup works, and that other paths are untouched. |
| `InstallSwap.FailedMeansUnchanged` | crates/rise-platform/src/updater.rs:927-932 | Failure leaves the installation as it was if undoing works, whole at the other place if not, and never loses the download. |
| `InstallSwap.SwapSucceedsIff` | crates/rise-platform/src/updater.rs:908-934 | A swap succeeds exactly when clearing, setting aside what can be seen, and moving the download in all work; otherwise it names the path that failed first. |
| `InstallSwap.SeenCopyIsSetAside` | crates/rise-platform/src/updater.rs:915-922 | On the way to success a copy that could be seen lies whole at the other place with nothing installed: no rename goes onto it. |
| `InstallSwap.KeepsACopyIffInstalled` | crates/rise-platform/src/updater.rs:915-934 | Under every fault some copy of the application exists throughout exactly when one was installed at the start. |
| `InstallSwap.InterruptedSwapThenFailedRetry` | crates/rise-platform/src/updater.rs:915-934 | A swap that stops between its renames followed by a swap whose rename fails leaves no installed and no set-aside copy, only the download. |
| `Texts.CutAroundAscii` | crates/rise-i18n/src/i18n.rs:431-457 | In well-formed UTF-8 a text may be cut right before and after any ASCII byte. |
| `Texts.EncodedIsWellFormed` | crates/rise-i18n/src/i18n.rs:385-412 | The UTF-8 bytes of any text are well formed and count as many characters as it has. |
| `Texts.TakenAreCharacters` | crates/rise-i18n/src/i18n.rs:385-390 | Taking characters of the bytes takes them of the text. |
| `Formatting.ScanDigits` | crates/rise-i18n/src/i18n.rs:362-368 | The loop stops at the end of the digits. |
| `Formatting.ParseSpec` | crates/rise-i18n/src/i18n.rs:258-360 | The stepwise parse finds the specified specifier or none. |
| `Formatting.FormatPrintf` | crates/rise-i18n/src/i18n.rs:414-464 | For every template and argument list the loop prints the tokens of the template, cutting the text only where it may be cut. |
| `FormattingProofs.TokensAreTheTemplate` | crates/rise-i18n/src/i18n.rs:419-464 | The tokens joined are the template, byte for byte. |
| `FormattingProofs.PrintedInParts` | crates/rise-i18n/src/i18n.rs:419-464 | A part prints the same in any surroundings, but for the arguments taken in order before it: inserted text is never read again. |
| `FormattingProofs.FieldsTakeTurns` | crates/rise-i18n/src/i18n.rs:442-457 | A field without a number prints the argument after those taken by the earlier fields without one; numbered fields take no turn. |
| `FormattingProofs.NoArgumentsCollapse` | crates/rise-i18n/src/i18n.rs:414-418 | With no arguments only doubled percent signs collapse and every specifier stays as written. |
| `FormattingProofs.DoubledPrintsItself` | crates/rise-i18n/src/i18n.rs:438-441 | Any text with its percent signs doubled prints itself, whatever the arguments. |
| `FormattingProofs.PaddedWidth` | crates/rise-i18n/src/i18n.rs:394-412 | A field is exactly as many characters wide as asked, or as its text, with the text on the side the flag says and blanks or, right-justified, zeros elsewhere. |
| `FormattingProofs.TakenCharacters` | crates/rise-i18n/src/i18n.rs:385-390 | A precision keeps a prefix of exactly so many whole characters, or the whole text. |
| `FormattingProofs.RenderedText` | crates/rise-i18n/src/i18n.rs:385-390 | A text is printed whole, or for a text's conversion with a precision its first so many characters. |
| `FormattingProofs.RenderedNumber` | crates/rise-i18n/src/i18n.rs:374-384 | An integer reads back from its text, a float printed as an integer reads back as its truncation, and a float's conversion uses its precision or six decimals. |
| `FormattingProofs.TruncatedTowardZero` | crates/rise-i18n/src/i18n.rs:382-382 | A float is cut toward zero and clamped to 64 bits. |
| `FormattingProofs.ZeroPaddedReadsBackIff` | crates/rise-i18n/src/i18n.rs:403-411 | A zero-padded integer reads as that integer exactly when it is not negative or needed no padding. |
| `SpecifierRoundTrip.WrittenReadsBack` | crates/rise-i18n/src/i18n.rs:258-360 | Every specifier is parsed back exactly from every way to write it, with any flags, a precision of zero with or without its digit, and any length modifier, whatever follows. |
| `SpecifierRoundTrip.SpecifierPrintsItsArgument` | crates/rise-i18n/src/i18n.rs:442-457 | A template that is one specifier prints the argument it names, the first being number one, or the next in order, padded as it says, or itself when there is none. |
| `SpecifierRoundTrip.TooWideIsNoSpecifier` | crates/rise-i18n/src/i18n.rs:255-325 | A width or a precision above 1024 makes no specifier. |
| `NamedFormatting.FormatNamed` | crates/rise-i18n/src/i18n.rs:466-504 | For every template the loop prints its tokens, replacing bound placeholders. |
| `NamedFormatting.SelfBindingIsIdentity` | crates/rise-i18n/src/i18n.rs:466-504 | Binding names to their own placeholders is the identity on every template. |
| `NamedFormatting.UntouchedIsIdentity` | crates/rise-i18n/src/i18n.rs:466-469 | A template none of whose placeholders is bound to anything else survives byte for byte. |
| `NamedFormatting.PrintedInParts` | crates/rise-i18n/src/i18n.rs:466-469 | The output of a part depends on that part alone, so a value with braces is never expanded. |
| `NamedFormatting.PlaceholderIsReplaced` | crates/rise-i18n/src/i18n.rs:481-500 | A bound placeholder prints its value as it is, and the rest of the template is substituted as if it stood alone. |
| `NamedFormatting.OtherBraceIsLiteral` | crates/rise-i18n/src/i18n.rs:481-492 | A brace that no name and closing brace follow is printed as it is, whatever is bound. |
| `NamedFormatting.BindingOrderIsIrrelevant` | crates/rise-i18n/src/i18n.rs:493-498 | Substitution is simultaneous: the order and the repetition of the bindings do not matter when each placeholder has one value. |
| `NamedFormatting.OrderNeverMattersIff` | crates/rise-i18n/src/i18n.rs:493-498 | For every template, reordering the bindings never changes the output exactly when no placeholder of it is bound to two different values. |
| `LanguageTags.Normalize` | crates/rise-i18n/src/app_language_resolution.rs:58-84 | The truncating loop finds what the longest dash-delimited prefix of the tag that is known maps to, and nothing exactly when none is known. |
| `LanguageTags.UsableFoldsCaseAndSeparators` | crates/rise-i18n/src/app_language_resolution.rs:39-72 | Tags that differ in ASCII case or in underscores for dashes are the same tag, other letters in them or not. |
| `LanguageTags.FoldedAlikeIff` | crates/rise-i18n/src/app_language_resolution.rs:63-72 | Tags fold alike exactly when they differ, character by character, in ASCII case or in the separator. |
| `LanguageTags.UsableBetweenBlanks` | crates/rise-i18n/src/app_language_resolution.rs:63-72 | A tag between blanks says something exactly when it has at most 35 characters and is neither `und` nor `mul`; white space alone says nothing. |
| `LanguageTags.AliasIsFound` | crates/rise-i18n/src/app_language_catalog.rs:436-441 | The first alias spelled like the tag, in either case, is the one taken. |
| `LanguageTags.CanonicalCaseIsStable` | crates/rise-i18n/src/app_language_resolution.rs:39-56 | For an ASCII tag canonical casing changes nothing but case, and a second time nothing at all. |
| `LanguageTags.CanonicalSpelling` | crates/rise-i18n/src/app_language_resolution.rs:39-56 | An ASCII tag comes out with as many subtags, the language in small letters, scripts in title case and everything else in capitals. |
| `LanguageTags.CanonicalCaseIsStableIff` | crates/rise-i18n/src/app_language_resolution.rs:39-56 | For every tag a second casing changes nothing exactly when each subtag after the first is a four-letter script both before and after its casing, or at neither time, or comes out spelled as the other kind already. |
| `LanguageTags.SharpSIsNotStable` | crates/rise-i18n/src/app_language_resolution.rs:39-56 | One that is not stable: `x-ßabc` becomes `x-SSabc`, and that becomes `x-SSABC`. |
| `LanguageTags.NormalizedIsShippedAndStable` | crates/rise-i18n/src/app_language_resolution.rs:58-84 | With a consistent catalogue the result is a shipped code, and mapping it again gives itself. |
| `CivilDates.EpochIsDayZero` | crates/rise-i18n/src/relative_time.rs:55-63 | The first of January 1970 is day zero. |
| `CivilDates.TomorrowIsOneMore` | crates/rise-i18n/src/relative_time.rs:55-63 | The day after any calendar date, in any year, counts one more. |
| `CivilDates.CountFollowsCalendar` | crates/rise-i18n/src/relative_time.rs:55-63 | Later dates have greater counts. |
| `CivilDates.EveryDayIsOneDate` | crates/rise-i18n/src/relative_time.rs:55-63 | Every integer is the count of exactly one calendar date. |
| `CivilDates.ParseOfWellFormed` | crates/rise-i18n/src/relative_time.rs:26-53 | A well-formed timestamp parses, whatever follows it, to its day count and second of the day in milliseconds exactly when its month, day, hour and minute are in range. |
| `CivilDates.LeadingBlanksAreIgnored` | crates/rise-i18n/src/relative_time.rs:27 | White space before a text, any that Unicode has, makes no difference. |
| `CivilDates.BlankIsWhitespace` | crates/rise-i18n/src/relative_time.rs:27 | The bytes that are trimmed are those of exactly the white space characters. |
| `CivilDates.TextOrderIsTimeOrder` | crates/rise-i18n/src/relative_time.rs:26-53 | Timestamps of real moments sort as text as they sort in time, with equality exactly for a leap second and the second before it. |
| `CivilDates.UnrealDatesBreakOrder` | crates/rise-i18n/src/relative_time.rs:26-53 | Every accepted timestamp on a day its month does not have, but for one that stands for a midnight, is before the next month's first as text and after it in time. |
| `CivilDates.SortsInTimeIff` | crates/rise-i18n/src/relative_time.rs:26-53 | An accepted timestamp sorts in time with all real ones exactly when its day is real, or is the one past the end of its month at midnight. |
| `EngineGuards.Guards.Open` | crates/rise-engine/src/rise_engine.rs:48-77 | The first thing in the way decides the error: a claimed account, a directory or lock file that cannot be made, a lock held or not to be had, the store; both guards are taken on success and every guard given back otherwise. |
| `EngineGuards.OpenFailsIff` | crates/rise-engine/src/rise_engine.rs:48-77 | In terms of the engines there are: which error an open returns is decided by an engine of the process that still holds its lease, the directory, an engine anywhere that holds its lock, and the store, in that order. |
| `EngineGuards.OpenIsARun` | crates/rise-engine/src/rise_engine.rs:48-77 | A call to open is a run of the protocol's steps: on success the guards, the engine and its thread are there, on failure the whole system is as before. |
| `EngineGuards.OpenedRegistry` | crates/rise-engine/src/rise_engine.rs:48-77 | After a successful call the process's claims and the lock table are the ones the call leaves in its guards. |
| `EngineGuards.GuardsAlwaysHold` | crates/rise-engine/src/rise_engine.rs:33-45 | Over every interleaving each registry is exactly the accounts with an open in progress or an engine alive, one each, and each lock is held by exactly the engine recorded. |
| `EngineGuards.OneEnginePerDirectory` | crates/rise-engine/src/rise_engine.rs:33-77 | Over every interleaving in any number of processes, any of which may end at any point, an account directory has at most one engine with a live store. |
| `EngineGuards.NothingLeaks` | crates/rise-engine/src/rise_engine.rs:142-177 | Once no engine is left, no account is claimed and no directory locked. |
| `EngineGuards.ThreadsNeverShare` | crates/rise-engine/src/rise_engine.rs:99-104 | If every engine is closed before it is dropped, and no other handle closes its store, no two store threads ever work on one database. |
| `EngineGuards.DropUnclosedCanShareIff` | crates/rise-engine/src/rise_engine.rs:99-104 | In every reachable state: after an open engine on disk is dropped without being closed, two store threads can come to share a database exactly if they could before or its thread is running. |
| `EngineGuards.OpenEnginesHaveThreads` | crates/rise-engine/src/rise_store/rise_store_concurrency.rs:129-146 | Over every run in which no other handle closes a store, an open engine's thread is running. |
| `EngineGuards.CloseElsewhereCanShare` | crates/rise-engine/src/rise_store/rise_store_concurrency.rs:129-146 | In every reachable state, after another handle closes a store on disk, two store threads can come to share a database although every engine is closed: the engine's own close need not wait. |
| `EngineGuards.OpenedSharesIff` | crates/rise-engine/src/rise_engine.rs:48-104 | A new engine shares its database exactly with the store threads that are in its directory already. |
| `EngineGuards.SharingNeedsStrayIff` | crates/rise-engine/src/rise_engine.rs:33-104 | In every reachable state: closing engines properly from then on, two store threads can still come to share a database exactly when there is a store thread on disk whose engine is gone or whose store another handle has closed. |
| `EngineGuards.OpenSucceeds` | crates/rise-engine/src/rise_engine.rs:48-77 | An account that is not held, in a directory that is not locked, can be opened. |
| `EngineGuards.ClosedCanBeReopened` | crates/rise-engine/src/rise_engine.rs:99-104 | Closing an engine frees its account and its directory, and its thread is gone unless another handle had closed the store. |
| `RequestIds.RequestIdAllocator.NextAt` | crates/rise-core/src/identifiers.rs:59-75 | Advances the clock as specified and issues its 64-bit form. |
| `RequestIds.AdvanceIsMax` | crates/rise-core/src/identifiers.rs:59-75 | The new stamp is one more than the last, or the wall clock's if that is greater. |
| `RequestIds.IssuedIsStampIff` | crates/rise-core/src/identifiers.rs:73-74 | The identifier is the stamp exactly while the stamp fits 64 bits; until then the guard against zero does nothing. |
| `RequestIds.IdsAlwaysIncrease` | crates/rise-core/src/identifiers.rs:55-75 | For any readings of the wall clock, identifiers are positive, strictly increasing, and ahead of the latest reading by no more than the number of calls. |
| `RequestIds.IdRisesIff` | crates/rise-core/src/identifiers.rs:59-75 | For every state of the clock and every reading, within 64 bits or not, the next identifier is greater than the last exactly if the 44 bits of milliseconds that are kept, or else the sequence, go up, and the guard against zero does not stand in for both. |
| `RequestIds.AllRiseIff` | crates/rise-core/src/identifiers.rs:55-75 | The identifiers of a run are all in order exactly when each call after the first meets a clock that rises so. |

## Left out

- Rendering, focus handles, views and the routing of input: only the shell's call that hands the drawn screens to the registry is modelled.
- The bindings to the operating systems (Carbon, MediaPlayer, D-Bus, Win32, AppKit, keyring), networking, build scripts and wiring: foreign calls.
- SHA-256, JSON and the text of floating-point numbers: digests and feeds enter as values, float texts through a parameter of the formatter.
- Rounding of `f32` and `f64`: pixels, seconds and rates are reals, and a not-a-number rate or argument does not occur.
- Widths of counters that only count events (the navigation clock, generations, ticks, depths): they are unbounded; the request identifiers, where the width matters, wrap at 64 bits.
- Bytes that are not valid text: file names, process paths and URLs are texts, and paths are compared component by component.
- `has_sidebar_list`, `all_routes`, `evictable`, `suppresses_notification`, `transition`, `apply_permission`, `verify` and the other one-branch functions: easy members.
- `single_instance.rs`, hotkeys, notifications, session activity, tray, materials, window chrome, theme and validation: finite or one-branch claims, or file protocols whose loss of data is not decided by the code.
- MediaKeys: the combination of `set_now_playing` with the publisher, which sends a new elapsed time for the same track without resetting the publisher's base; the drift bound is stated for the publisher alone.
- TextOrderIsTimeOrder: is about timestamps of the well-formed shape, as are ParseOfWellFormed and SortsInTimeIff; the parser also accepts a sign in any field and any character for the two colons.
- SystemRoundTripIff: leaves out that an empty command means the running program, which is never what is written.
- OpenIsARun: one call with nobody moving in between; interleaved calls are the runs of the steps themselves.
- WhoMayRefresh: the flag that skips a synchronisation when nothing was marked as changed is not modelled.
- Normalize: takes the case tables of Unicode as a parameter, and the catalogue as another, so neither the tables nor the shipped codes are checked.
- CanonicalCaseIsStableIff: rests on what `Casing.Regular` says of those tables, which hold of Unicode's: no mapping is empty or yields a dash, and mapping twice is mapping once.
- LongestMatch: the order of two aliases that differ only in case is the catalogue's.
- RenderArg: the exact digits of floats are a parameter.
- OneEnginePerDirectory: counts engines with a live handle; for the threads behind them see ThreadsNeverShare.
- OldCopySurvives: takes renames to be atomic and three distinct paths; the removal of a directory may stop half-way.
- SwapInPlace: a failed probe of the installed path is a parameter, other errors are not told apart.
- Poll: dropping a pending future, and what an executor does between wake and poll, are not steps of their own; a spurious poll is allowed at any time.
