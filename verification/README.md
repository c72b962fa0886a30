# HivePaaS: a verified model of its entity and configuration layer

HivePaaS keeps its settings, jobs, audit rows and errors in an entity layer, and its own
secrets in a configuration directory. This project models the parts of that layer that are
algorithms or protocols, in Dafny, and proves what they are for:

- **Schedules.dfy**, **CronSearches.dfy** - the calculator of scheduled runs: intervals and
  cron expressions, the jump ahead, and the last run remembered between scans; and which
  calculations never end. Times are nanoseconds; a difference of two times saturates as a
  64-bit duration does. The cron library is a parameter: which expressions parse, when one
  fires, and what it gives as the next firing after a time, the zero time where it finds none.
- **SettingTrees.dfy**, **SettingPlaces.dfy**, **EncryptedFields.dfy**, **SettingWalks.dfy**,
  **Reencryption.dfy**, **SecretExports.dfy**, **RefMaps.dfy** - a setting's parsed data as a
  tree of values of Go-like types, whose encrypted fields and strings are storage; the walks
  that clear, count, keep, re-encrypt, collect and rewrite what they hold; what those come to
  on values and at each place, a path through the tree; which walks undo each other, and why
  one may skip a map that can hold no secret.
- **Json.dfy**, **NulStripping.dfy**, **StoredData.dfy**, **Migrations.dfy** - JSON text as
  the encoder writes and a decoder reads it, dropping NULs before a JSONB column refuses
  them, the parsed values kept beside a row's text, snapshots, and migrations by version.
- **FileStores.dfy**, **ManagedConfig.dfy** - the settings file the installation writes
  itself: a file system that may crash between any two calls, the write protocol over it, and
  reading, modifying, writing, publishing and reloading, as an object and as an abstract
  machine over saves (done, unsynced or unwritten), crashes and reloads.
- **AppDomainCaches.dfy** - the cached app domain, its loader, and how often that is called.
- **Errors.dfy** - error trees in memory: coding, wrapping, and looking up status and code.
- **ImageNames.dfy** - image repository names and tags, and which apps share one.
- **ObjectScopes.dfy** - filtering one scope by another, against the rows a scope shows.
- **RefLoads.dfy**, **RefClosure.dfy** - loading what settings refer to, kind by kind and
  round by round, with what comes along; and what a load fails on.
- **Wrappers.dfy** - options and results.

Code that changes things in place is modelled by classes and methods, each proved against a
function of values; the lemmas are about those functions. The walks take a ghost set of the
storage they may meet, which stands for "was there when the walk began".

## Model

| member | source | states |
|---|---|---|
| Schedules.Sub | hivepaas_app/entity/setting_sched_job.go:170-172 | A difference of times is exact within 64 bits of nanoseconds, and saturated outside. |
| Schedules.SchedJobSchedule.CountingFrom | hivepaas_app/entity/setting_sched_job.go:103-110 | Counts from the remembered run when there is one before the time asked from and the expression, interval and initial time it was made with are still the schedule's; else from the initial time. |
| Schedules.SchedJobSchedule.SetLastSchedTime | hivepaas_app/entity/setting_sched_job.go:114-126 | Remembers a run with the parameters that made it; the zero time and the one remembered change nothing, and only then is no change reported. |
| Schedules.SchedJobSchedule.CalcNextRuns | hivepaas_app/entity/setting_sched_job.go:152-212 | Where the calculation ends, it ends with what the library was asked step by step up to then; and where each answer was a next firing, with exactly the first so many runs from a time on, in order, or all when there are fewer. An interval schedule's always ends. Each fault gives its error; a negative count acts as one. |
| Schedules.SchedJobSchedule.CalcNextRunsInRange | hivepaas_app/entity/setting_sched_job.go:216-276 | The same for a window: exactly its runs, in order, each once; errors as in the code. |
| Schedules.AnsweredEnds | hivepaas_app/entity/setting_sched_job.go:187-210 | A calculation of the next runs that is answered with a next firing wherever it asks ends. |
| Schedules.AnsweredEndsWithRuns | hivepaas_app/entity/setting_sched_job.go:187-210 | ... and what it ends with is the first runs. |
| Schedules.AnsweredStops | hivepaas_app/entity/setting_sched_job.go:252-276 | A window's calculation that is answered so ends, too ... |
| Schedules.AnsweredStopsWithRuns | hivepaas_app/entity/setting_sched_job.go:252-276 | ... with the window's runs. |
| Schedules.SchedJobSchedule.Scan | hivepaas_app/tasks/queue/queueimpl/queue_schedule_job_tasks.go:70-88 | A scan makes what the window's calculation gives - the window's runs, where the library answered - and remembers the last of them. |
| Schedules.JumpPassesNoRun | hivepaas_app/entity/setting_sched_job.go:170-172 | The jump ahead lands on the interval's grid, beyond the time asked from only if it has not moved, and passes no run from that time on, however much the difference saturates. |
| Schedules.IsRunIff | hivepaas_app/entity/setting_sched_job.go:152-276 | What a run is: with an interval, the time counted from and each whole number of intervals after it, before the end and not at it; with an expression alone, a firing after the time counted from, up to the end and at it. |
| Schedules.RunsInExact | hivepaas_app/entity/setting_sched_job.go:223-276 | The reference list, made by looking at each nanosecond, is strictly increasing and holds the runs of its window and no others. |
| Schedules.ListedIsRunsIn | hivepaas_app/entity/setting_sched_job.go:223-276 | Any ordered list of exactly a window's runs is the reference list. |
| Schedules.RangeIsNextRunsCut | hivepaas_app/entity/setting_sched_job.go:159-276 | A window's list is the list of the next n runs cut at the window's end, for every n large enough to reach it. |
| Schedules.WindowsTile | hivepaas_app/entity/setting_sched_job.go:214-276 | The runs of [a, c] are those of [a, b] followed by those of [b + 1ns, c]. |
| Schedules.ResumedRunsAreTheRuns | hivepaas_app/entity/setting_sched_job.go:99-126 | With what is remembered coherent, a window's runs are the same counted from it or from the initial time. |
| Schedules.ResumedFirstRunsAreTheFirstRuns | hivepaas_app/entity/setting_sched_job.go:99-126 | The same for the next n runs. |
| Schedules.StepKeepsCoherent | hivepaas_app/entity/setting_sched_job.go:103-126 | A scan or an edit keeps the remembered run on the grid, or after the initial time, of the parameters remembered with it. |
| Schedules.MemoryIsInvisible | hivepaas_app/entity/setting_sched_job.go:103-126 | Over every run of scans and edits each scan gives what a schedule that remembers nothing would give. |
| Schedules.TouchingScansLoseNoRun | hivepaas_app/tasks/queue/queueimpl/queue_schedule_job_tasks.go:70-88 | Touching or overlapping scans together make every run between the first's start and the last's end, and nothing else. |
| Schedules.EqualSchedulesRunAlikeIff | hivepaas_app/entity/setting_sched_job.go:74-80 | Schedules that compare equal run alike exactly when no cron expression is read, their initial times have one offset, or there is no room for a run: the offset, which says where an expression is read, is left out. |
| Schedules.ReadThere | hivepaas_app/entity/setting_sched_job.go:143-148 | An expression's hours are those of the installation's zone when the initial time was given in UTC, and those of its offset when it was given with one: libraries that agree there make the same runs, whatever they say elsewhere. |
| Schedules.SearchedThere | hivepaas_app/entity/setting_sched_job.go:143-210 | ... and are followed through the same steps by the calculations. |
| Schedules.NotReadElsewhere | hivepaas_app/entity/setting_sched_job.go:143-148 | And nowhere else: of every such schedule with room for a run, two libraries that agree everywhere but there, or at every offset if that is the installation's zone, make different runs. |
| CronSearches.AnsweredUnlessGivenUp | hivepaas_app/entity/setting_sched_job.go:187-210 | A calculation of the next runs is answered, and so gives exactly those, iff the library never answers it with the zero time before it ends. |
| CronSearches.WindowAnsweredUnlessGivenUp | hivepaas_app/entity/setting_sched_job.go:252-276 | The same for a window's calculation. |
| CronSearches.CalculationNeverEndsIff | hivepaas_app/entity/setting_sched_job.go:187-210 | The next runs' calculation goes on for ever iff it is answered with the zero time before it ends and, begun again there, once more before a run is made or the end is passed. |
| CronSearches.WindowNeverEndsIff | hivepaas_app/entity/setting_sched_job.go:252-276 | A window's calculation goes on for ever iff it is answered with the zero time before it leaves the window, and again of a search begun there. |
| CronSearches.NeverStopsIff | hivepaas_app/entity/setting_sched_job.go:187-276 | The same of any search that a time beyond some bound would stop. |
| CronSearches.GivenUpIsForEver | hivepaas_app/entity/setting_sched_job.go:187-276 | With a library that looks up to a horizon, as the real one looks five years ahead, any search that goes on up to some time - a window's, or one for the next run - never ends iff it is given up once. |
| CronSearches.GivenUpIffGap | hivepaas_app/entity/setting_sched_job.go:187-276 | ... and is given up iff, from where it begins to where it would stop, there is a time after which nothing fires for as long as the library looks. |
| CronSearches.WindowNeverEndsIffGap | hivepaas_app/entity/setting_sched_job.go:252-276 | So a window's calculation never ends iff there is such a gap in what it goes through ... |
| CronSearches.WindowRightOrNeverEnds | hivepaas_app/entity/setting_sched_job.go:252-276 | ... and if it ends it gives exactly the window's runs. |
| CronSearches.CalculationNeverEndsIffGaps | hivepaas_app/entity/setting_sched_job.go:187-210 | The next runs' calculation never ends iff there is a gap it comes to before it has made them, and one before the time asked from. |
| CronSearches.RightOrNeverEnds | hivepaas_app/entity/setting_sched_job.go:187-210 | Of an expression that repeats, as the calendar does every 400 years, and asked for from later than one period, it gives exactly the runs or never ends. |
| CronSearches.NeverFiringNeverEnds | hivepaas_app/entity/setting_sched_job.go:187-210 | An expression always answered with the zero time, a 30 February, never ends. |
| CronSearches.LongGapNeverEnds | hivepaas_app/entity/setting_sched_job.go:187-210 | With any library that looks up to a horizon, a gap between the last firing before the time asked from and the next is never crossed: a 29 February counted past 2096. |
| AppDomainCaches.AppDomainCache.LoadAppDomain | hivepaas_app/config/app_domain.go:40-72 | Serves the domain of the state machine's new state, and calls the loader just when there is one and the deadline has come. |
| AppDomainCaches.AppDomainCache.SetAppDomainReloadFunc | hivepaas_app/config/app_domain.go:74-78 | Sets the loader alone. |
| AppDomainCaches.AppDomainCache.SetAppDomainToNeedReload | hivepaas_app/config/app_domain.go:83-87 | Forgets the deadline alone. |
| AppDomainCaches.LoadBudget | hivepaas_app/config/app_domain.go:40-72 | Loads so far, at 30 seconds each, never run ahead of resets and elapsed time, with the wait still due counted in. |
| AppDomainCaches.LoadRateIsBounded | hivepaas_app/config/app_domain.go:40-87 | From any state, over every run with a clock that does not run back, loads number at most resets + 1 + elapsed / 30s. |
| AppDomainCaches.LoadsAreApart | hivepaas_app/config/app_domain.go:40-72 | With no reset and no load between, a read after a load calls the loader iff there is one and the last load was a success 10 minutes before, or a failure 30 seconds before. |
| AppDomainCaches.DomainStaysKnown | hivepaas_app/config/app_domain.go:40-72 | A domain once known is never served empty again. |
| AppDomainCaches.DeadlineIsNear | hivepaas_app/config/app_domain.go:40-72 | The deadline is never further off than the longer window. |
| AppDomainCaches.StaleReadLoads | hivepaas_app/config/app_domain.go:40-72 | In every run from the start, a read 10 minutes after the last event calls the loader. |
| AppDomainCaches.DomainIsTheLastGiven | hivepaas_app/config/app_domain.go:40-72 | Over every run the domain is the last non-empty one a loader gave; before there is one, that configured at the first read. |
| AppDomainCaches.LoadedIsServed | hivepaas_app/config/app_domain.go:59-70 | So a domain loaded is served by that read and each later one until another is. |
| ImageNames.NormalizeImagePart | hivepaas_app/entity/app_image.go:99-105 | Repeating the replacement until nothing is doubled ends, and comes to collapsing each run once and trimming. |
| ImageNames.ReplacePass | hivepaas_app/entity/app_image.go:99-105 | A pass over a value with a doubled separator strictly shortens it. |
| ImageNames.PassKeepsCollapse | hivepaas_app/entity/app_image.go:99-105 | A pass does not change what a value collapses to. |
| ImageNames.NormalizedIsClean | hivepaas_app/entity/app_image.go:95-105 | No '--' or '__' at any position, no separator at either end, no longer than it was. |
| ImageNames.NormalizedIsIdempotent | hivepaas_app/entity/app_image.go:95-105 | Normalizing again changes nothing. |
| ImageNames.NormalizedKeepsLetters | hivepaas_app/entity/app_image.go:95-105 | Every character that is no separator stays, in order. |
| ImageNames.NotRepairedIff | hivepaas_app/entity/app_image.go:95-105 | Two separators stay side by side exactly when the value, between its ends, has two that differ, or two dots. |
| ImageNames.MixedSeparatorsStay | hivepaas_app/entity/app_image.go:99-105 | "a-_b" and "a..b" are left as they are. |
| ImageNames.ImageRepoName | hivepaas_app/entity/app_image.go:32-46 | Computes the name the lemmas are about; a missing project key is an error. |
| ImageNames.RepoNameIsWithinLimits | hivepaas_app/entity/app_image.go:15-46 | A repository name is at most 108 bytes, doubles no separator, ends with none, and starts with none when the keys hold anything else. |
| ImageNames.SharedRepoNameIff | hivepaas_app/entity/app_image.go:32-46 | Two apps share a repository name iff their keys, as cut, normalize alike - and, of those cut, the digest says the same. |
| ImageNames.SluggedShareIff | hivepaas_app/entity/app_image.go:27-46 | Of slugged keys not cut, iff the keys are the same, or part of the one's project key stands at the front of the other's app key. |
| ImageNames.MadeKeysShareIff | hivepaas_app/pkg/projecthelper/key.go:18-20 | Of project keys as they are made, without a hyphen: iff the keys are the same. |
| ImageNames.TwoAppsShareAName | hivepaas_app/entity/app_image.go:27-46 | An app c of a project a-b, as older keys may be, and b-c of a share one. |
| ImageNames.EnvironmentsShareIff | hivepaas_app/entity/app_image.go:27-46 | An app's environments share its repository iff no key is cut, or the digests, which are of the environments too, are the same. |
| ImageNames.ImageTagIsWithinLimits | hivepaas_app/entity/app_image.go:50-79 | A commit's tag is at most 28 bytes; of a hexadecimal commit it doubles no separator and ends with none. |
| ImageNames.TagSaysEnvAndCommit | hivepaas_app/entity/app_image.go:50-79 | A tag is had iff the commit has seven characters and the environment a key; it ends with a hyphen and the first seven, and says the key's letters, as cut, before - the key itself where that is clean and short. |
| ImageNames.SharedTagIff | hivepaas_app/entity/app_image.go:50-79 | Two tags are the same iff the environments' prefixes are, and the commits' first seven characters. |
| ObjectScopes.FilteredIsIntersectionIff | hivepaas_app/usecase/auditloguc/list.go:23-35 | A filtered list shows exactly the rows scope and filter both show - the scope's own object's alone where the scope or the request keeps to own rows - iff the scope is not the Hivepaas one and the filter leaves out no env of the scope's that is listed. |
| ObjectScopes.OwnRowsStayIff | hivepaas_app/usecase/auditloguc/list.go:31-35 | A scope kept to its own rows is read, filtered, with the flag set on what the filter leaves: it shows no row the scope does not iff that is the scope's own object. |
| ObjectScopes.FilteredNarrows | hivepaas_app/repository/audit_log_repo.go:109-249 | Read with child apps, as the audit log reads it, filtering still never shows more. |
| ObjectScopes.FilteredIsIntersectionWithChildrenIff | hivepaas_app/repository/audit_log_repo.go:156-249 | ... and shows all that both show iff, further, the two are not an app and a child of it. |
| ObjectScopes.LeftOutRow | hivepaas_app/entity/object_scope.go:49-86 | A filter kept to some envs widens: a row it does not show is in the filtered list. |
| ObjectScopes.FilteredIsTheInner | hivepaas_app/entity/object_scope.go:44-86 | Without a filter a scope stays; with one it is whichever of the two lies in the other, the scope if both do, and none if neither does or the filter is in an env the scope leaves out. |
| ObjectScopes.ProjectShowsItsEnvs | hivepaas_app/repository/audit_log_repo.go:198-227 | A project shows its own rows and what each env it is kept to shows, ... |
| ObjectScopes.EnvShowsItsApps | hivepaas_app/repository/audit_log_repo.go:177-196 | ... an env its own and what each of its apps shows, ... |
| ObjectScopes.AppShowsItsChildren | hivepaas_app/repository/audit_log_repo.go:155-175 | ... an app its own and, with child apps, what each of them shows, ... |
| ObjectScopes.GlobalShowsAll | hivepaas_app/repository/audit_log_repo.go:235-250 | ... and the global scope everything; kept to its own rows, those written in it or in the Hivepaas scope, which shows just its own. |
| Errors.GetBaseError | hivepaas_app/hperrors/hp_error.go:305-330 | The walk over a finite tree ends and finds the base that the tree's reading has. |
| Errors.GetMessageID | hivepaas_app/hperrors/hp_error.go:336-370 | ... and the code that the tree's reading has, the last of joined errors first. |
| Errors.ErrorText | hivepaas_app/hperrors/hp_error.go:84-86 | The text of an error tree is its reading's. |
| Errors.AsHpErrorReads | hivepaas_app/hperrors/hp_error.go:382-392 | Looking for an application error finds one in the tree just when its reading has one. |
| Errors.WrapError | hivepaas_app/hperrors/hp_error.go:382-424 | Wrapping leaves a finite tree with the reading of a wrapped error, changes no object there was, and copies all that an inner application error held: parameters, exposed keys, extra detail, log, cause, level and fallback. |
| Errors.WrapWithParam | hivepaas_app/hperrors/hp_error.go:93-96 | A parameter set on a wrapped copy never reaches the inner error. |
| Errors.HoldingItselfIsNoTree | hivepaas_app/hperrors/hp_error.go:382-417 | Wrapping in place would make an error hold itself, which is no finite tree. |
| Errors.FoundIsHeld | hivepaas_app/hperrors/hp_error.go:382-417 | What it would be wrapped in holds it: the application error found in an error is held by it. |
| Errors.HpError.WithCause | hivepaas_app/hperrors/hp_error.go:88-91 | Sets the cause alone. |
| Errors.HpError.WithParam | hivepaas_app/hperrors/hp_error.go:93-96 | Sets one parameter. |
| Errors.HpError.WithParams | hivepaas_app/hperrors/hp_error.go:98-101 | Sets every parameter given, and leaves the others. |
| Errors.HpError.WithTransParam | hivepaas_app/hperrors/hp_error.go:103-106 | Sets one translated parameter. |
| Errors.HpError.ExposeParams | hivepaas_app/hperrors/hp_error.go:113-116 | Adds keys to those exposed. |
| Errors.HpError.WithExtraDetail | hivepaas_app/hperrors/hp_error.go:118-126 | Adds a line to the extra detail. |
| Errors.HpError.WithMsgLog | hivepaas_app/hperrors/hp_error.go:128-136 | Adds a line to the log message. |
| Errors.WrappedKeepsBaseAndCode | hivepaas_app/hperrors/hp_error.go:382-417 | Wrapping keeps status and code of any error, and wrapping twice is wrapping once. |
| Errors.NewErrKeepsBaseAndNames | hivepaas_app/hperrors/errors_base.go:11-16 | A coded error keeps its base and answers with the code, if that is one. |
| Errors.BuiltErrorsKeepStatusAndCode | hivepaas_app/hperrors/errors_base.go:11-81 | However often coded, put in context and wrapped, an error keeps its root's status and answers with the last code given. |
| Errors.StatusesOfBases | hivepaas_app/hperrors/errors_base.go:35-47 | Each base error's HTTP status; any error of none of them answers with 500. |
| Errors.CodesOfBases | hivepaas_app/hperrors/errors.go:182-203 | Each base error's gRPC code; a wrapped error of none is Unknown, and one that is no application error Internal. |
| Errors.PassesAsIs | hivepaas_app/hperrors/errors.go:173-180 | An error passes as it is iff it is gRPC's own or wraps or joins one that is. |
| Errors.CodesGrowByCodeChars | hivepaas_app/hperrors/hp_error.go:359-370 | A code is ERR_ and after it nothing but capitals, digits and underscores. |
| Json.RoundTrip | hivepaas_app/entity/json_nul.go:18-36 | Decoding undoes encoding, for every value with distinct keys. |
| Json.ParseEscaped | hivepaas_app/entity/json_nul.go:18-36 | A string escaped as the encoder does parses back to itself, whatever follows (section 7 of RFC 8259). |
| Json.EscapedCharacters | hivepaas_app/entity/json_nul.go:10-23 | How the encoder writes each character that it escapes, a NUL as the escape the byte test looks for. |
| Json.DecodesWithinSpaces | hivepaas_app/entity/json_nul.go:10-36 | A document is read with spaces around it, and with nothing else after it. |
| Json.SpacesArePassed | hivepaas_app/entity/json_nul.go:10-36 | Spaces, tabs and line ends between its tokens say nothing, either, ... |
| Json.BareControlsFail | hivepaas_app/entity/json_nul.go:10-36 | ... and a control character not escaped makes a string unreadable. |
| NulStripping.TextShowsNul | hivepaas_app/entity/json_nul.go:18-23 | The byte test misses no NUL, in any string or key. |
| NulStripping.TestSeesEscapedBackslash | hivepaas_app/entity/json_nul.go:18-23 | It also fires on an escaped backslash before u0000, which is no NUL. |
| NulStripping.StripIsClean | hivepaas_app/entity/json_nul.go:40-67 | What is stripped holds no NUL, and is as it was when there was none. |
| NulStripping.StripIsIdempotent | hivepaas_app/entity/json_nul.go:40-67 | Stripping twice is stripping once. |
| NulStripping.EachKeySurvivesOnce | hivepaas_app/entity/json_nul.go:55-64 | Each key stays, stripped, and once. |
| NulStripping.NoMemberIsMadeUp | hivepaas_app/entity/json_nul.go:55-64 | A stripped object's member is one the object had, stripped. |
| NulStripping.StripStringAppend | hivepaas_app/entity/json_nul.go:42-46 | Stripping a string is stripping its parts: it goes character by character. |
| NulStripping.StripStringIff | hivepaas_app/entity/json_nul.go:42-46 | A string is another stripped iff it is that without its NULs, every other character kept, in order. |
| NulStripping.LastIsLeft | hivepaas_app/entity/json_nul.go:55-64 | Of members put one by one the last of each key is left. |
| NulStripping.StripSays | hivepaas_app/entity/json_nul.go:40-67 | A value stripped is the value without NULs: strings character by character, lists element by element, each member that of the last one visited with its key, no key lost, and numbers, booleans and null as they were. |
| NulStripping.WithoutNUL | hivepaas_app/entity/json_nul.go:40-67 | The walk strips, and reports a change exactly when there was a NUL. |
| NulStripping.ElemsWithoutNUL | hivepaas_app/entity/json_nul.go:47-54 | The same for a list, element by element in place. |
| NulStripping.MembersWithoutNUL | hivepaas_app/entity/json_nul.go:55-64 | The same for an object; where keys collide the one visited last is left. |
| NulStripping.MarshalJSONB | hivepaas_app/entity/json_nul.go:18-36 | Stores the value's text and calls it clean, or the stripped value's and calls it not, exactly as the value has a NUL. |
| NulStripping.StoredDecodes | hivepaas_app/entity/json_nul.go:10-36 | The stored text decodes without a NUL: to the value itself iff called clean, and to it stripped always. |
| NulStripping.StoredSays | hivepaas_app/entity/json_nul.go:10-36 | So what the stored text decodes to is the value without NULs, and nothing else of it is lost. |
| StoredData.Task.SetArgs | hivepaas_app/entity/task.go:249-264 | Stores the arguments' text, and keeps them parsed just when nothing was stripped. |
| StoredData.Task.ArgsAs | hivepaas_app/entity/task.go:270-288 | Gives what the text says, unless a value of another type is kept; a failed read keeps nothing. |
| StoredData.Task.SetOutput | hivepaas_app/entity/task.go:303-318 | As SetArgs, for the output. |
| StoredData.Task.OutputAs | hivepaas_app/entity/task.go:324-342 | As ArgsAs, for the output. |
| StoredData.Task.AddRun | hivepaas_app/entity/task.go:167-180 | The runs read afterwards are those read before and the new one; unreadable text is left; a NUL in a run is written as it is. |
| StoredData.WrittenRunsReadBack | hivepaas_app/entity/task.go:144-180 | Runs written are the runs read back, those recorded before and the new one. |
| StoredData.NoRunsYet | hivepaas_app/entity/task.go:144-180 | An empty or null text holds no runs yet, and one of another kind cannot be read. |
| StoredData.ReadsSayTheText | hivepaas_app/entity/task.go:237-342 | Over any sequence of sets, reads and failed reads, each read gives what decoding the text gives - a mismatch exactly when another type is kept than is asked for. |
| StoredData.ReadsOfOneTypeSayTheText | hivepaas_app/entity/task.go:237-342 | With one type throughout, caching is invisible. |
| StoredData.Setting.SetData | hivepaas_app/entity/setting.go:122-138 | Stores text and size, keeps the value parsed when clean, and refuses another type without a change. |
| StoredData.Setting.ParseAs | hivepaas_app/entity/setting.go:144-187 | What parsing gives and leaves kept, a failed one included; a value kept of another type than asked for is refused, and an own type of another panics. |
| StoredData.Setting.ResetParsedData | hivepaas_app/entity/setting.go:148-150 | Drops the parsed value alone. |
| StoredData.Setting.RestoreFrom | hivepaas_app/entity/task_settings_revert.go:130-134 | Puts data and version back, and drops what was parsed. |
| StoredData.RestoredParsesAsBefore | hivepaas_app/entity/task_settings_revert.go:117-134 | Restored from a snapshot, a setting parses as it did when that was taken, whatever came between. |
| StoredData.ParseIsStableIff | hivepaas_app/entity/setting.go:167-187 | A second parse answers as the first iff the text can be read: a failing parse leaves its half-filled value kept. |
| Migrations.StoredHas | hivepaas_app/entity/data_migration_shape.go:16-30 | True exactly when the decoded text has the field at the path. |
| Migrations.MigrateDeployment | hivepaas_app/entity/app_deployment_settings_migration.go:7-34 | Of whatever parsing gives, a value kept or the type's own included: stored settings, version and counter become the migrated ones together, or the row is as parsing left it; unreadable data is reported. What is stored reads back as the migrated settings, where the text before held no NUL and what was kept agreed with it, as of a JSONB column, or where the settings hold none. |
| Migrations.StoreMigrated | hivepaas_app/entity/app_deployment_settings_migration.go:24-33 | Sets the version, counts the update and stores the settings; without a NUL they read back as they are. |
| Migrations.AutoDeployChoiceIsKept | hivepaas_app/entity/app_deployment_settings_migration.go:7-34 | A stored choice is kept whatever the version; without one, deploying on a push is on exactly for older rows; older than version 3 are just the rows migrated, newer those refused. |
| Migrations.DocRoundTrip | hivepaas_app/entity/app_deployment_settings_migration.go:7-34 | Deployment settings are read back from their document as they were. |
| Migrations.LeftOutReadsAsZero | hivepaas_app/entity/app_deployment_settings.go:23-63 | A field left out or null reads as empty, or off. |
| Migrations.OtherKindsFail | hivepaas_app/entity/app_deployment_settings.go:23-63 | One of another kind of value fails the reading. |
| Migrations.OldAndNewNamesReadAlike | hivepaas_app/entity/setting_app_managed.go:321-352 | A row under the old names reads as the same row under the new ones; moving twice is moving once. |
| Migrations.AppManagedSettings.MoveLegacyFields | hivepaas_app/entity/setting_app_managed.go:332-352 | Moves the fields kept under old names, in place, in every restore point and target. |
| Migrations.PlaceObject.Move | hivepaas_app/entity/setting_app_managed.go:336-350 | Moves one position, and never over one already there. |
| Migrations.ManagedSetting.Migrate | hivepaas_app/entity/setting_app_managed_migration.go:7-31 | Version, counter, data and stored row become the migrated ones together, or nothing changes. |
| Migrations.ManagedSetting.SetAppManagedData | hivepaas_app/entity/setting_app_managed.go:405-411 | Stores the data at the current version, counter untouched. |
| Migrations.ManagedRowsReadAlike | hivepaas_app/entity/setting_app_managed_migration.go:7-31 | Whatever version a row is at, migrating what was parsed of it changes nothing that is read, and leaves new names alone; rows older than version 2 are migrated, and newer ones refused. |
| Migrations.ServiceSettings.Migrate | hivepaas_app/entity/hivepaas_service_settings_migration.go:11-39 | Carries the old proxy depth forward for older rows, with version and counter. |
| FileStores.ChangedKeeps | hivepaas_app/config/managed.go:147-185 | Writing to a file no directory entry of the name leads to adds nothing a crash may leave there. |
| FileStores.RenamedKeeps | hivepaas_app/config/managed.go:181-183 | Renaming a synced file into place adds that whole file, and nothing else, to what a crash may leave. |
| FileStores.UnsyncedMayBeAnything | hivepaas_app/config/managed.go:147-183 | Why the write is synced: renamed into place without, a file may be anything after a crash. |
| FileStores.RenameMayBeUndone | hivepaas_app/config/managed.go:181-199 | Why the directory is: until it is, a crash may leave at the name whatever it might have before. |
| FileStores.DirSyncedSettles | hivepaas_app/config/managed.go:188-199 | After the directory is synced over a synced file, a crash can bring back nothing else. |
| FileStores.RebootKeeps | hivepaas_app/config/managed.go:140-185 | A crash leaves one of the files it may, and that for good. |
| ManagedConfig.AppDirectory.SaveManagedSettings | hivepaas_app/config/managed.go:140-199 | Whichever calls fail, and at whichever moment of this save a crash comes, the file is what it might have been before the save or the complete new text; after a success only the new; after a failure before the rename, what it was. The temporary file does not stay, unless removing it fails. |
| ManagedConfig.AppDirectory.WriteTemp | hivepaas_app/config/managed.go:156-179 | The temporary file, if no call fails, is private, complete and synced before it is renamed. |
| ManagedConfig.AppDirectory.Install | hivepaas_app/config/managed.go:181-185 | Rename, then directory sync. |
| ManagedConfig.AppDirectory.Crash | hivepaas_app/config/managed.go:140-185 | A crash leaves one of the files it might, for good: of a directory settled on one, that one. |
| ManagedConfig.WrittenLoads | hivepaas_app/config/managed.go:100-122 | What is written loads, permissions included. |
| ManagedConfig.OnlyOwnersFilesLoad | hivepaas_app/config/managed.go:94-122 | A file loads iff it can be read, and its owner alone may use it, not to run it; one that is not there says nothing and is no error. |
| ManagedConfig.NothingManagedIsTheBase | hivepaas_app/config/managed.go:68-90 | What the managed file leaves out is what base file and environment give. |
| ManagedConfig.WhatIsManagedWins | hivepaas_app/config/managed.go:68-90 | Each setting it has, a false or empty one and the license flag included, is what the file says, and touches no other. |
| ManagedConfig.Installation.UpdateManagedSettings | hivepaas_app/config/managed.go:131-138 | Reads, modifies and writes, with the same guarantee at every moment of it; what cannot be read is not overwritten. |
| ManagedConfig.Installation.SaveChange | hivepaas_app/config/rotation.go:22-40 | Whatever fails, a save of the object is the save of the abstract system, ended done, unsynced or unwritten. |
| ManagedConfig.Installation.SaveAppSecret | hivepaas_app/config/rotation.go:15-40 | Persists, then publishes a copy; a failure publishes nothing, an empty secret is refused; a crash at any moment brings back nothing but what it might have, or the new. |
| ManagedConfig.Installation.SaveSecuritySettings | hivepaas_app/config/security.go:103-131 | The same for the security settings. |
| ManagedConfig.Installation.Reload | hivepaas_app/config/config.go:186-272 | Lays the managed file over what base file and environment give, if they give anything; a file that does not load, or a result that fails the other checks, keeps the current configuration. |
| ManagedConfig.Installation.Crash | hivepaas_app/config/managed.go:140-185 | A crash of the object is a crash of the abstract system: it leaves the settings on disk with some first ones of the changes not yet synced. |
| ManagedConfig.CrashWithinASave | hivepaas_app/config/managed.go:140-185 | What a crash in the middle of a save leaves is what one leaves after a save that ended unsynced. |
| ManagedConfig.ReloadGivesWhatWasPublishedIff | hivepaas_app/config/managed.go:70-138 | After a load and any saves, however each ends, a reload from the same base gives what is published iff the last secret and the last security that reached the file say what the last published ones do. |
| ManagedConfig.WithoutUnsyncedAllIsPublished | hivepaas_app/config/managed.go:131-138 | What reached the file and what was published are the same where no save failed at the directory sync. |
| ManagedConfig.UnsyncedSecretIsNotPublished | hivepaas_app/config/managed.go:181-185 | One that did, of a new secret, is given by the next reload and was not published. |
| ManagedConfig.ReloadGivesTheLastKept | hivepaas_app/config/security.go:103-131 | Over every run of saves, crashes and reloads, a reload from whatever base gives the last security kept (false and empty included), the last secret kept, and the license flag written by hand. |
| ManagedConfig.DoneIsKept | hivepaas_app/config/managed.go:188-199 | What is kept by then, and a change whose save returned success, stay kept, in order, whatever saves and crashes follow. |
| ManagedConfig.Equal | hivepaas_app/config/security.go:54-75 | Equal exactly when flags, the exemptions as a set, and the lists' lengths are. |
| ManagedConfig.EqualAllowsAlike | hivepaas_app/config/security.go:80-88 | Settings that Equal calls equal allow the same kinds of secret, and the same apps. |
| ManagedConfig.AllowAlikeIff | hivepaas_app/config/security.go:80-88 | Settings allow the same iff both allow all, or neither does and their named exemptions are the same set. |
| ManagedConfig.AllowedKinds | hivepaas_app/config/security.go:77-88 | With the flag every kind of secret may be returned; without it just the kinds exempted, and an unnamed one never. |
| ManagedConfig.RepeatedExemptionDiffers | hivepaas_app/config/security.go:54-75 | An exemption listed twice makes settings unequal that allow the same. |
| SettingTrees.ReachedAreChanged | hivepaas_app/entity/setting_reencrypt.go:46-118 | A walk changes the secrets it reaches, each by its function, in order. |
| SettingTrees.PruningIsSound | hivepaas_app/entity/setting_reencrypt.go:98-101 | The pruned walk reaches what the full walk reaches and leaves what it leaves, whatever is done to the secrets. |
| SettingTrees.TypesWithoutSecretsReachNone | hivepaas_app/entity/setting_reencrypt.go:138-159 | A value of a type that is said to hold no encrypted field reaches none. |
| SettingTrees.TypeHoldsSecretIff | hivepaas_app/entity/setting_reencrypt.go:138-159 | A type is said to hold one iff some value of it has one that a walk reaches. |
| SettingTrees.PruningKeepIsSound | hivepaas_app/entity/setting_secrets_omit.go:224-227 | The same for keeping. |
| SettingTrees.OmittingConserves | hivepaas_app/entity/setting_secrets_omit.go:21-168 | Empty secrets after omitting are those before plus those omitted; a second omitting omits none and changes nothing. |
| SettingTrees.KeepingRestoresOmitted | hivepaas_app/entity/setting_secrets_omit.go:170-238 | Keeping from the original restores exactly what omitting cleared. |
| SettingTrees.KeepingOnlyFills | hivepaas_app/entity/setting_secrets_omit.go:182-238 | Keeping never overwrites a held secret, and changes nothing but secrets. |
| SettingPlaces.OmittedAt | hivepaas_app/entity/setting_secrets_omit.go:21-112 | Place by place, a place being a path of slots: omitting leaves the secret there empty, unless the path goes through an unexported field; then it stays. |
| SettingPlaces.SecretsAreThoseAtPlaces | hivepaas_app/entity/setting_reencrypt.go:81-118 | What a walk reaches are the secrets at the places whose path goes through no unexported field, all of them, each once. |
| SettingPlaces.CountsArePlaces | hivepaas_app/entity/setting_secrets_omit.go:114-168 | The counts are the numbers of such places where a secret holds nothing, or something. |
| SettingPlaces.KeptSecretAt | hivepaas_app/entity/setting_secrets_omit.go:170-238 | Keeping fills the empty secret at a place from the place of the source that goes with it - in maps through the entry of the same key, wherever it stands, else through the slot that stands there - if a secret is there that holds something; every other stays. |
| SettingWalks.OmitSecretsIn | hivepaas_app/entity/setting_secrets_omit.go:21-112 | In place, clears every secret reached, and counts those that held something. |
| SettingWalks.CountEmptySecretsIn | hivepaas_app/entity/setting_secrets_omit.go:117-168 | Counts the secrets reached that hold nothing. |
| SettingWalks.TallyCounts | hivepaas_app/entity/setting_secrets_omit.go:117-168 | The counts the walks add up are the numbers of empty and of held secrets in the list of those reached. |
| SettingWalks.KeepSecretsIn | hivepaas_app/entity/setting_secrets_omit.go:175-238 | In place, gives every empty secret the one that goes with it in the source, which is left alone. |
| SettingWalks.RemapStringValues | hivepaas_app/entity/setting_refmap.go:68-117 | In place, replaces every string reached that can be set and is a key of the mapping; one an interface holds cannot. |
| SettingWalks.CollectRefIDs | hivepaas_app/entity/setting_refmap.go:52-66 | The identifiers a setting's type reports, whatever its report is, of all five kinds. |
| SettingWalks.RemapRefs | hivepaas_app/entity/setting_refmap.go:29-50 | Rewrites, and succeeds exactly when every identifier the type then reports is the wanted form of one it reported before; nothing to rewrite by succeeds. |
| EncryptedFields.EncryptedField.Set | hivepaas_app/entity/setting_encryption.go:103-111 | A value with an encryption prefix is ciphertext, any other plaintext; the other half is cleared. |
| EncryptedFields.SetToIff | hivepaas_app/base/encryption.go:5-16 | A value is taken for ciphertext iff it begins with one of the two markers. |
| EncryptedFields.IsMaskedIff | hivepaas_app/base/encryption.go:26-33 | A value is taken for the placeholder iff it is 1 to 16 characters of stars with spaces before and after; spaces alone are. |
| EncryptedFields.EncryptedField.GetPlain | hivepaas_app/entity/setting_encryption.go:154-171 | Opens and keeps the plaintext, errors without a change, and keeps the two halves coherent. |
| EncryptedFields.EncryptedField.GetEncrypted | hivepaas_app/entity/setting_encryption.go:125-152 | Seals and keeps the ciphertext, refuses the placeholder and a missing key, and keeps the plaintext. |
| EncryptedFields.EncryptedField.Reencrypt | hivepaas_app/entity/setting_encryption.go:190-200 | Drops the ciphertext of a field whose plaintext can be had, and else changes nothing. |
| EncryptedFields.ReencryptingKeepsPlainIff | hivepaas_app/entity/setting_encryption.go:184-200 | A field keeps its plaintext iff that is not taken for ciphertext, or opens to itself; then no ciphertext is left. |
| EncryptedFields.MarshaledReadsBack | hivepaas_app/entity/setting_encryption.go:24-58 | A field marshaled and read back has the plaintext it had; only the placeholder is refused. |
| Reencryption.ReencryptValue | hivepaas_app/entity/setting_reencrypt.go:46-136 | In place: succeeds exactly when every secret reached can be decrypted, re-encrypts each, and counts those that held something. |
| Reencryption.SealValue | hivepaas_app/entity/setting_encryption.go:24-34 | Marshaling asks each encrypted field it can reach for its ciphertext, and fails exactly when one of those has none to give; of a field in a copy it writes an empty object, whatever it holds. |
| Reencryption.ParsedSetting.ReencryptData | hivepaas_app/entity/setting_reencrypt.go:19-44 | Reports a change exactly when some secret was held; then the text is the re-encrypted data's, as it is marshaled; errors leave the text. |
| Reencryption.ReencryptedDataKeepsSecretsIff | hivepaas_app/entity/setting_reencrypt.go:11-44 | The text stored parses back to every other value as it was, hashes included; and to every secret's plaintext, sealed anew, iff no encrypted field is held by value in a map's entry. |
| Reencryption.ReencryptedAt | hivepaas_app/entity/setting_reencrypt.go:46-136 | Place by place: the walk leaves of a secret its plaintext with no ciphertext, and of one in an unexported field what it was. |
| Reencryption.StoredAt | hivepaas_app/entity/setting_reencrypt.go:11-44 | And the text stored holds there the plaintext sealed anew, or nothing where there was none; an empty object of a field held by value in a map's entry. |
| Reencryption.RelatedAt | hivepaas_app/entity/setting_reencrypt.go:81-118 | Data related secret by secret is related place by place: in unexported fields nothing differs. |
| Reencryption.SecretInAnEntryIsLost | hivepaas_app/entity/setting_encryption.go:24-34 | A secret so held is not in the text, whatever it is: the field's marshaler has a pointer receiver, which an entry is no address for. No setting type holds one so (hivepaas_app/entity/setting_app_template.go:68 holds pointers). |
| Reencryption.ReencryptingKeepsAllIff | hivepaas_app/entity/setting_reencrypt.go:46-136 | Every plaintext survives iff none is taken for ciphertext. |
| Reencryption.RelatedDiffersInSecrets | hivepaas_app/entity/setting_reencrypt.go:11-18 | Data related secret by secret is the same but for its secrets, and those are related in order. |
| Reencryption.EveryIff | hivepaas_app/entity/setting_reencrypt.go:46-118 | What a walk requires of each secret it meets is required of exactly the secrets in the list of those reached. |
| SecretExports.CollectOneSecret | hivepaas_app/entity/setting_secrets_omit.go:311-331 | Maps one field's ciphertext to its plaintext; a copy's caches never reach the field. |
| SecretExports.CollectSecretPlaintexts | hivepaas_app/entity/setting_secrets_omit.go:263-309 | Records every secret reached, in order, and leaves the caches filled except in entries of maps held by value. |
| SecretExports.RecordedIsOfReached | hivepaas_app/entity/setting_secrets_omit.go:263-309 | What is recorded is the list of secrets reached, a later one over an earlier of the same ciphertext. |
| SecretExports.ShownAreRecorded | hivepaas_app/entity/setting_secrets_omit.go:240-261 | Every secret asks for its plaintext under its ciphertext, and no two for different ones. |
| SecretExports.RecordedAreShown | hivepaas_app/entity/setting_secrets_omit.go:240-261 | The map holds nothing else. |
| SecretExports.ExportShowsEverySecretIff | hivepaas_app/entity/setting_secrets_omit.go:240-309 | The map shows every secret by the ciphertext the data marshaled next has of it, iff no held secret is in a copy, a field held by value in a map's entry, as no setting type holds one. |
| RefMaps.RemappingLeavesSecrets | hivepaas_app/entity/setting_refmap.go:26-28 | Rewriting leaves every secret as it is. |
| RefMaps.BackIff | hivepaas_app/entity/setting_refmap.go:68-117 | Two rewritings give a tree back exactly when they give back each string that is set. |
| RefMaps.InverseTakesBackIff | hivepaas_app/entity/setting_refmap.go:68-117 | An injective mapping and its inverse give the tree back iff no string set outside the keys is a target. |
| RefMaps.TextAfterWalk | hivepaas_app/entity/setting_refmap.go:68-117 | Place by place: a string is rewritten to its target unless it is in an unexported field or stands where it cannot be set, and then stays. |
| RefMaps.ReachesIff | hivepaas_app/entity/setting_refmap.go:68-117 | A reference is reached iff its path goes through no unexported field and it can be set. |
| RefMaps.RefsAfterWalk | hivepaas_app/entity/setting_refmap.go:29-50 | Of references held at places of a setting, the walk rewrites those it reaches and can set, and no other. |
| RefMaps.ReachedRefsPass | hivepaas_app/entity/setting_refmap.go:29-50 | With non-empty targets and references held where the walk reaches, rewriting succeeds and the references are the mapped ones. |
| RefMaps.ChecksIff | hivepaas_app/entity/setting_refmap.go:34-49 | Comparing the identifiers reported before and after is comparing the references held. |
| RefMaps.RefsCheckedIff | hivepaas_app/entity/setting_refmap.go:29-50 | So of a type that reports the strings at some places, rewriting succeeds iff every reference held there is afterwards one wanted. |
| RefMaps.CheckCatchesEveryMissIff | hivepaas_app/entity/setting_refmap.go:22-49 | A missed reference always fails iff no identifier is mapped to one that is mapped on; with two swapped it can pass. |
| RefClosure.RefObjectIDs.HasData | hivepaas_app/entity/ref_objects.go:172-175 | True exactly when some identifier is asked for. |
| RefClosure.RefObjectIDs.AddRefIDs | hivepaas_app/entity/ref_objects.go:177-186 | Appends kind by kind. |
| RefClosure.RefObjectIDs.GetRecursiveRefObjectIDs | hivepaas_app/entity/ref_objects.go:207-239 | Exactly what the settings loaded refer to and was never asked for, of all five kinds. |
| RefLoads.RefObjects.LoadSettings | hivepaas_app/service/settingservice/settingserviceimpl/ref_objects.go:164-213 | Adds the settings not held that are found; where required, one missing or deleted fails. |
| RefLoads.RefObjects.LoadUsers | hivepaas_app/service/settingservice/settingserviceimpl/ref_objects.go:398-433 | Adds the users not held; one missing fails a load that requires existence or activity, and ends any other in a panic. |
| RefLoads.RefObjects.LoadObjects | hivepaas_app/service/settingservice/settingserviceimpl/ref_objects.go:216-396 | Adds the apps, projects or environments not held whole that are found, each with the project and environment that come along; fails exactly on what is missing or deleted where existence is required, and on what is there and not active, or of something not active, where activity is. |
| RefLoads.HoldsMore | hivepaas_app/service/settingservice/settingserviceimpl/ref_objects.go:108-146 | Loads of different things, one after the other, hold what one load of them all would. |
| RefLoads.WhatPasses | hivepaas_app/service/settingservice/settingserviceimpl/ref_objects.go:216-396 | What is held with all it is part of passes unlooked at; what is missing or deleted passes iff existence is not required; what is there and active passes iff, where activity is required, all it is part of is active. |
| RefLoads.InactiveIsAsMissing | hivepaas_app/service/settingservice/settingserviceimpl/ref_objects.go:243-257 | Where activity is required an inactive app, project or environment is as one that is not there; an inactive user is found, and fails. |
| RefLoads.ActivityUnasked | hivepaas_app/service/settingservice/settingserviceimpl/ref_objects.go:216-396 | Where it is not, an object's own activity is nothing to the load. |
| RefClosure.LoadRound | hivepaas_app/service/settingservice/settingserviceimpl/ref_objects.go:108-146 | A round is done exactly when everything it asks for passes in its turn, and then what is held is what was asked for by then, found, with what came along. |
| RefClosure.LessLeft | hivepaas_app/service/settingservice/settingserviceimpl/ref_objects.go:81-85 | A round that asks for more leaves less to ask for, so the rounds end, whatever refers to what. |
| RefClosure.MoreStaysWithin | hivepaas_app/service/settingservice/settingserviceimpl/ref_objects.go:148-156 | What a round adds is within every closure of what was first asked for. |
| RefClosure.RoundsStayWithin | hivepaas_app/service/settingservice/settingserviceimpl/ref_objects.go:81-162 | Round after round, nothing outside any such closure is asked for. |
| RefClosure.RoundsAreDetermined | hivepaas_app/service/settingservice/settingserviceimpl/ref_objects.go:148-156 | What each round asks for follows from what was asked for at first and what was held. |
| RefClosure.SettledIsClosed | hivepaas_app/service/settingservice/settingserviceimpl/ref_objects.go:148-152 | When no round is left, what was asked for is closed under what its settings refer to. |
| RefClosure.LoadRefObjectsByIDsOnce | hivepaas_app/service/settingservice/settingserviceimpl/ref_objects.go:81-162 | The recursion ends; it is done exactly when everything each round asks for passes, and then everything asked for is held where found and nothing referred to was left unasked. |
| RefClosure.LoadRefObjectsByIDs | hivepaas_app/service/settingservice/settingserviceimpl/ref_objects.go:67-79 | What is asked for in the end is the least closure, and held where found; it is done exactly when everything each round asks for passes, and else fails, or panics where neither existence nor activity is required. Done, what was asked for in any round and not held whole at first is there and undeleted where existence is required, and active with the active project and environment it is in where activity is - but for a project that came along, and, where what is missing is skipped, an environment that came along with a deleted app. |
| RefClosure.LoadedDelivers | hivepaas_app/service/settingservice/settingserviceimpl/ref_objects.go:216-396 | Rounds that all pass leave that held. |
| RefClosure.InOrderPasses | hivepaas_app/service/settingservice/settingserviceimpl/ref_objects.go:81-162 | And a load whose rounds ask for nothing but what is there, undeleted and active with all it is part of, passes, whatever is held and required. |
| RefClosure.RoundsPassIff | hivepaas_app/service/settingservice/settingserviceimpl/ref_objects.go:81-162 | Where nothing asked for comes along deleted (or inactive, if that matters), a load is done iff everything asked for, in whatever round, is there as things were at first. |
| RefClosure.ProjectInTurnIff | hivepaas_app/service/settingservice/settingserviceimpl/ref_objects.go:287-334 | Else a project passes iff it would at first or came along with what was asked for before it: then it is not looked at, deleted or not. |
| RefClosure.EnvInTurnIff | hivepaas_app/service/settingservice/settingserviceimpl/ref_objects.go:336-396 | And an environment iff it would at first, unless it came along, is not active, and what is missing is skipped: then it fails. |
| RefClosure.DeletedProjectPasses | hivepaas_app/service/settingservice/settingserviceimpl/ref_objects.go:216-334 | A deleted project that is required to exist passes beside an app of it. |
| RefClosure.SkippingFailsOnUsersIff | hivepaas_app/service/settingservice/settingserviceimpl/ref_objects.go:56-65 | A load that skips what is missing, of any status, is done iff no user asked for is missing. |
| CronSearches.GivenUpMakesARunTwice | hivepaas_app/entity/setting_sched_job.go:187-210 | Note: of a library held to its promise alone, whose expression fires once, as none of five fields does: a calculation given up may end with a run made twice. RightOrNeverEnds says why one that repeats does not. |
| Schedules.ValidIff | hivepaas_app/entity/setting_sched_job.go:82-97 | Note: a schedule that may be saved can be calculated; the only schedules that can be calculated and not saved have both an interval and an expression. |
| Errors.NeverOK | hivepaas_app/hperrors/errors.go:173-203 | Note: an error that is not gRPC's own never becomes code OK, and only those that are pass as they are. |
| StoredData.RestoredSizeIff | hivepaas_app/entity/task_settings_revert.go:130-134 | Note: the size column is right after a restore iff the old size happened to be the snapshot's. |
| Migrations.MigratedOnce | hivepaas_app/entity/setting.go:203-216 | Note: migrating never lowers a version, counts an update exactly on a change, and changes nothing twice. |
| Migrations.DepthOnlyBehindAProxy | hivepaas_app/entity/hivepaas_service_settings_migration.go:29-39 | Note: only an installation behind a proxy is given a depth, 2, and only where it is older than version 2 and has none. |

## Left out

- MigrateDeployment: deployment fields that the migration does not touch are not modelled.
- ReencryptValue: says nothing of the fields after a failure, when those before the one that failed are rewritten already; the caller drops the data.
- SealValue: says nothing of the fields after a failure, when those before the one refused keep their new ciphertext.
- CollectSecretPlaintexts: says nothing of the fields after a failure, when those before it keep what was filled in.
- ReencryptData: the parse before it is StoredData's, and the text is the tree it parses to; unexported fields, which JSON does not carry, stand as they are.
- RemapRefs: each setting type's own report of its references is a parameter, a function of the data.
- Equal: the source calls lists that repeat an exemption a different number of times unequal; the model keeps that (RepeatedExemptionDiffers).
- LoadObjects: one method for apps, projects and environments, whose queries and checks are the same but for what comes along with each; a user counts as active while available (hivepaas_app/service/userservice/userserviceimpl/loading.go:124-140). The settings of the database are those in scope and, where activity is required, active; whether a query joins deleted rows is the database's to say.
- Scan: tasks already made for a run, which the store drops, and the retry of a failed scan.
- CalcNextRuns: what it ends with after the library gave up on it is given step by step, as EndsWith says, and not in terms of runs. That it may then be wrong is shown of a library held to its promise alone (GivenUpMakesARunTwice); with one that looks up to a horizon, and an expression that repeats, it does not end.
- FilteredIsIntersectionIff: the flag for including apps of an environment, and scopes of users as filters.
- UpdateManagedSettings: two processes at once, locks, and the agent run mode, which refuses to save; keys in the file that the settings do not declare, which a rewrite loses (hivepaas_app/config/managed.go:117-119).
- ParseIsStableIff: a caller that writes into the parsed value it was given.
- Reload: how base file and environment are read, which checks the other parts of a configuration must pass, and the secret that development generates where there is none.
- WrapError: translation, message text, the levels of ParseError, Is, and the identity of joined errors.
- Where the source's own comments say more than its code does, the model follows the code: a filter is said never to widen (hivepaas_app/entity/object_scope.go:44-48), security settings to compare as sets (hivepaas_app/config/security.go:49-53), a reference out of reach to fail (hivepaas_app/entity/setting_refmap.go:22-24), every stored ciphertext to be mapped (hivepaas_app/entity/setting_secrets_omit.go:240-251), loads that skip what is missing to skip it (hivepaas_app/service/settingservice/settingserviceimpl/ref_objects.go:56-65), and an image repository to be unique across the installation and shared by an app's environments (hivepaas_app/entity/app_image.go:27-28).
- The cron parser, time zones, the TOML codec, the data key's cryptography and hashes are parameters with the laws stated where they are used.
- JSON: surrogate pairs, invalid UTF-8, keys that differ in case, numbers' own grammar, and the order of members after re-encoding beyond what a map keeps.
- Walks: two ways to one field, recursive types, secrets an interface holds by value, arrays of fixed length in an interface, and the order in which a map is visited, for which any listing stands. Where a walk puts a map's entry back, the entry counts as changed in place.
- SQL, paging, upserts, advisory locks, Docker, URL building, the task queue's own protocol, permissions and licences.
- A job's status predicates and the cap on its retry delay: one-branch code over a delay that is not part of this model.
- Validators, constants, dependency wiring and the trivial version-1 migrations: one-branch code that would add only easy members.
