# Sandbox and safety checks of the MCP agent project, in Dafny

This project models the small decision procedures at the edges of the agent
system: the tool servers and the desktop app. The client's orchestration loop
is not among them.

- **URL safety** (`url_safety.dfy`, module `UrlSafety`). The browser server's
  `validate_url` is written to decide whether the browser may open a URL. It
  strips the URL and then applies, in order: https only, no URL-shortener
  host, no blocked top-level domain, at most 2048 characters, no dangerous download extension in the path, and no non-ASCII
  character. The first check that fails decides the reason. The host and path
  are extracted as Python's `urlparse` does it. That follows the generic syntax
  of section 3 of RFC 3986, with Python's own additions: tabs, CR and LF are
  removed before splitting, and `;params` are cut from the last path segment.
  The reason is a datatype `Reason`; `Message` gives the exact text Python returns.
- **Opening a URL** (`browser_tools.dfy`, module `BrowserTools`). The
  `open_url` tool hands its URL to the browser without calling the validator.
  The module models that behaviour, and next to it the screened tool the
  validator was written for (see "## Findings").
- **Paths** (`pure_paths.dfy`, module `PurePaths`). This is a lexical model of
  the pathlib operations the sandbox joins use on POSIX: parsing text into
  components, the `/` operator (an absolute right side replaces the left),
  `Path(*parts)`, `resolve()` with `.` and `..` collapsed, `str()`, and the
  ancestor test behind `relative_to`. A resolved path is a list of component
  names below `/`. The process's working directory is a parameter `cwd`.
- **Strict sandbox join** (`sandbox_paths.dfy`, module `SandboxPaths`). This is
  `safe_join` of the file-operations server. It resolves the root, joins the
  parts, resolves the result, and raises `PermissionError` unless the resolved
  root is an ancestor of the result, compared component by component.
- **Legacy sandbox join** (`legacy_paths.dfy`, module `LegacySandboxPaths`).
  This is `safe_join` of the older server. It does not resolve the root, and it
  compares the text of the result with the text of the root as a string prefix.
  Lemmas relate it to the strict version: on a resolved root, the legacy join
  admits everything the strict join admits, and also sibling directories such
  as `/a/sandbox2` next to `/a/sandbox`.
- **Event log** (`event_store.dfy`, module `EventStore`). This is the app's
  reducer over the list of agent lifecycle events: `ADD_EVENT` appends,
  `RESET` returns the empty initial state, and any other action changes nothing.
- **Header status** (`header.dfy`, module `Header`). `getAgentStatus` scans the
  log from newest to oldest. It maps the first event of a recognised type to
  "Error", "Executing", "Thinking" or "Idle", and returns "Idle" when there is
  none. It is a method with a `while` loop, proved equal to the recursive
  specification `AgentStatus`, which is built on `LastRecognised`.
- `strings.dfy` (module `Strings`) holds `StartsWith` and `EndsWith`, the
  counterparts of `str.startswith` and `str.endswith`.

## Model

| member | source | states |
|---|---|---|
| UrlSafety.Message | browser_server/utils/safety.py:33-58 | the text returned for a shortener, a blocked TLD or a download ends with (or, for the TLD, quotes after a dot) exactly the host, TLD or extension refused |
| UrlSafety.Strip | browser_server/utils/safety.py:29 | the result neither starts nor ends with whitespace (Python's `isspace` set), and is a slice of the input with only whitespace cut away on either side |
| UrlSafety.Lower | browser_server/utils/safety.py:36 | lower-casing keeps the length and maps each character on its own |
| UrlSafety.RemoveUnsafe | browser_server/utils/safety.py:35 | the result holds no tab, CR or LF and is no longer than the input; a URL without them is left unchanged |
| UrlSafety.RemoveUnsafeKeepsInput | browser_server/utils/safety.py:35 | every character of the result occurs in the input |
| UrlSafety.RemoveUnsafeAppend | browser_server/utils/safety.py:35 | removing tab, CR and LF from two pieces of text and joining them is removing them from the joined text |
| UrlSafety.Netloc | browser_server/utils/safety.py:35-36 | the host is the text after "https://" (tab, CR and LF removed) up to the first '/', '?' or '#', or to the end when there is none |
| UrlSafety.PathWithParams | browser_server/utils/safety.py:35 | the text after the host up to the first '?' or '#', or to the end: query and fragment are cut off |
| UrlSafety.SplitParams | browser_server/utils/safety.py:35 | the path is a prefix of its input, cut at the first ';' of the last segment and left whole when that segment holds none |
| UrlSafety.UrlPath | browser_server/utils/safety.py:35 | the path runs from the end of the host to the query or fragment, holds no '?' or '#', and is cut at the first ';' of its last segment |
| UrlSafety.AfterLastUnique | browser_server/utils/safety.py:43 | the text after the last dot is the one suffix that holds no dot and follows a dot or the start of the text |
| UrlSafety.Tld | browser_server/utils/safety.py:43 | the top-level domain ends the lower-cased host, holds no dot, and follows the host's last dot (it is the whole host when there is no dot) |
| UrlSafety.MatchedExtension | browser_server/utils/safety.py:52-54 | when some dangerous extension ends the path, the one returned does; no other extension can end it, so the reason does not depend on the order the set is walked in |
| UrlSafety.MatchedIsAfterLastDot | browser_server/utils/safety.py:52-54 | an extension that ends the path is the text after the path's last dot |
| UrlSafety.ValidateUrl | browser_server/utils/safety.py:23-60 | an allowed result carries the stripped URL; a URL is allowed exactly when it is https, has balanced host brackets, and is not a shortener, a blocked TLD, too long, a dangerous download or non-ASCII |
| UrlSafety.StripIdempotent | browser_server/utils/safety.py:29 | stripping twice is stripping once |
| UrlSafety.SurroundingSpaceIgnored | browser_server/utils/safety.py:29 | surrounding whitespace never changes the verdict |
| UrlSafety.OnlyHttpsAllowed | browser_server/utils/safety.py:32-33 | a URL is refused for its scheme exactly when its stripped form does not start with "https://" |
| UrlSafety.ShortenerMatchesWholeHost | browser_server/utils/safety.py:36-40 | the shortener reason is given exactly when the lower-cased host equals a listed shortener (and the parse succeeded), and it names that host |
| UrlSafety.TldBlockedExactly | browser_server/utils/safety.py:43-45 | the TLD reason is given exactly when no shortener matched and the text after the host's last dot is a blocked TLD, and it names that TLD |
| UrlSafety.LengthCap | browser_server/utils/safety.py:48-49 | 2048 characters or fewer never fail the length check; more than 2048 fail it once the earlier checks passed |
| UrlSafety.DangerousDownloadRefused | browser_server/utils/safety.py:52-54 | a lower-cased path ending in a dangerous extension is refused with that extension once the earlier checks passed |
| UrlSafety.NonAsciiNeverAllowed | browser_server/utils/safety.py:57-58 | a URL holding a character above 0x7F is never allowed |
| UrlSafety.RaisedExactly | browser_server/utils/safety.py:35 | URL parsing raises "Invalid IPv6 URL" exactly when an https URL's host holds one of '[' and ']' without the other |
| UrlSafety.DangerousDownloadExactly | browser_server/utils/safety.py:52-54 | the download reason is given exactly when every earlier check passed and a dangerous extension ends the lower-cased path, and it names such an extension |
| UrlSafety.SuspiciousUnicodeExactly | browser_server/utils/safety.py:57-58 | the Unicode reason is given exactly when it is the only check that fails: a non-ASCII URL with a dangerous download is refused as a download |
| BrowserTools.OpenUrl | browser_server/tools/tools.py:9-11 | every URL is handed to the browser exactly as given, with the reply "Opened URL: " and the URL |
| BrowserTools.OpenUrlSkipsScreening | browser_server/tools/tools.py:9-11 | every URL the validator refuses, or on which parsing raises, is opened all the same |
| BrowserTools.OpenUrlScreened | browser_server/utils/safety.py:24-26 | a URL reaches the browser exactly when the validator allows it, and then stripped, https and ASCII only; otherwise the reply is the validator's reason or the parsing error |
| PurePaths.Parse | file-ops_server/utils/paths.py:13 | parsed components are non-empty, never "." and never hold '/'; a path is absolute exactly when its text starts with '/' |
| PurePaths.PathOf | file-ops_server/utils/paths.py:13 | `Path(*parts)` is well formed, and absolute exactly when one of the parts is |
| PurePaths.PathOfAppend | file-ops_server/utils/paths.py:13 | `Path(*a, *b)` is `Path(*a) / Path(*b)` |
| PurePaths.CombineAssociative | file-ops_server/utils/paths.py:13 | `(x / y) / z` is `x / (y / z)` |
| PurePaths.Combine | file-ops_server/utils/paths.py:13 | `a / b` is `b` when `b` is absolute, and otherwise `a`'s components followed by `b`'s |
| PurePaths.Resolve | file-ops_server/utils/paths.py:9-13 | a resolved path holds only names: no "", ".", ".." or '/' |
| PurePaths.NormalizeAppend | file-ops_server/utils/paths.py:13 | resolving `a + b` is resolving `a` and then `b` from there |
| PurePaths.NormalizeResolved | file-ops_server/utils/paths.py:9 | resolved components resolve to themselves |
| PurePaths.ResolveRootFirst | file-ops_server/utils/paths.py:9-13 | joining onto the resolved root or onto the root as given resolves to the same path |
| PurePaths.JoinCollapsesDotDot | file-ops_server/utils/paths.py:13 | joining "a/../b" lands where joining "b" lands |
| PurePaths.ParseRender | file-ops_server/utils/paths.py:13 | the text of a resolved path parses back to that path |
| PurePaths.Str | server/utils/paths.py:7 | the text of an absolute path starts with '/' |
| PurePaths.ParseStr | server/utils/paths.py:7 | the text of any path parses back to that path |
| PurePaths.IsComponentPrefix | file-ops_server/utils/paths.py:19 | `relative_to` succeeds exactly when the second path is the first followed by further components |
| PurePaths.RenderPrefix | server/utils/paths.py:7 | an ancestor's text is a prefix of its descendant's text |
| SandboxPaths.SafeJoin | file-ops_server/utils/paths.py:3-23 | a returned path is resolved and lies under the resolved root; it is the join onto the root resolved once; PermissionError is raised exactly when that path is not under the resolved root, with the message naming both |
| SandboxPaths.DotDotCollapsed | file-ops_server/utils/paths.py:13 | "a/../b" is joined exactly as "b" |
| SandboxPaths.NoPartsGivesRoot | file-ops_server/utils/paths.py:13-19 | joining no parts, or only ".", returns the resolved root |
| SandboxPaths.RootSpellingIrrelevant | file-ops_server/utils/paths.py:9 | two roots that resolve alike give the same outcome for every join |
| SandboxPaths.ParentOfRootRefused | file-ops_server/utils/paths.py:18-21 | ".." above a root other than "/" raises PermissionError |
| SandboxPaths.SiblingRefused | file-ops_server/utils/paths.py:6 | a path whose component at the root's depth differs from the root's last one is refused, even when its name extends the root's name |
| LegacySandboxPaths.SafeJoin | server/utils/paths.py:3-10 | the resolved join is returned unchanged exactly when its text starts with the root's text as given, and otherwise PermissionError is raised with its fixed message |
| LegacySandboxPaths.DotDotCollapsed | server/utils/paths.py:5 | ".." is resolved before the test: "a/../b" is joined exactly as "b" |
| LegacySandboxPaths.RelativeRootRefusesAll | server/utils/paths.py:7-8 | with a relative root, every join raises PermissionError |
| LegacySandboxPaths.StrictAdmitsImpliesLegacyAdmits | server/utils/paths.py:7 | on a resolved root, every join the component-wise check admits is admitted here too, with the same path |
| LegacySandboxPaths.SiblingAdmitted | server/utils/paths.py:7 | a sibling whose last name extends the root's last name is admitted here and refused by the component-wise check: the converse of the lemma above fails |
| LegacySandboxPaths.SiblingExample | server/utils/paths.py:7 | with the root at /a/sandbox, "/a/sandbox2/x" is admitted here and refused by the strict join |
| LegacySandboxPaths.UnresolvedRootExample | server/utils/paths.py:7 | the root is compared as written: a root "/a/../sandbox" refuses even the sandbox itself, which the strict join admits |
| EventStore.EventReducer | mcp-app/src/eventStore.ts:15-32 | ADD_EVENT gives a log one longer whose prefix is the old log and whose last element is the new event; RESET gives the empty initial state; any other action returns the state unchanged |
| EventStore.ResetIdempotent | mcp-app/src/eventStore.ts:26-27 | RESET twice is RESET once |
| EventStore.ReplayAdds | mcp-app/src/eventStore.ts:21-24 | adding a list of events one by one to the initial state yields exactly that list |
| EventStore.ResetForgets | mcp-app/src/eventStore.ts:26-27 | after a RESET, the state depends only on the actions dispatched since |
| Header.StatusFor | mcp-app/src/component/Header.tsx:11-24 | a recognised event stands for one of the four statuses |
| Header.LastRecognised | mcp-app/src/component/Header.tsx:8-26 | the index returned holds a recognised event with none after it; none is returned only when no event is recognised |
| Header.AgentStatus | mcp-app/src/component/Header.tsx:7-28 | the status is one of "Idle", "Thinking", "Executing", "Error", and "Idle" for an empty log |
| Header.GetAgentStatus | mcp-app/src/component/Header.tsx:7-28 | the backward scan returns one of the four statuses, and exactly the status of the last recognised event |
| Header.LastRecognisedUnique | mcp-app/src/component/Header.tsx:8-26 | there is at most one last recognised event |
| Header.LastRecognisedDecides | mcp-app/src/component/Header.tsx:8-26 | the status is the one the last recognised event stands for: "Error" for a failure, "Executing", "Thinking", or "Idle" for request_completed |
| Header.UnrecognisedAppendKeepsStatus | mcp-app/src/component/Header.tsx:8-26 | appending an event of an unrecognised type leaves the status unchanged |
| Header.RecognisedAppendSetsStatus | mcp-app/src/component/Header.tsx:8-26 | appending a recognised event sets the status to the one it stands for |
| Header.IdleExactly | mcp-app/src/component/Header.tsx:23-27 | the status is "Idle" exactly when no event is recognised or the last recognised one is request_completed |
| Header.StatusAfterReducer | mcp-app/src/component/Header.tsx:27 | after RESET the header shows "Idle"; after adding an unrecognised event it shows what it showed before |

## Left out

- UrlSafety.ValidateUrl: the only exception of URL parsing modelled is the ValueError for unbalanced '[' / ']' in the host. Python's further checks also raise: validation of a bracketed IPv6 host, and the NFKC check on a non-ASCII host. The model does not capture them, because they depend on the Python version and on Unicode normalisation tables.
- UrlSafety.Lower: only A–Z and the Kelvin sign (U+212A) are lower-cased. These are the only characters whose lower case is ASCII. Every string compared after lower-casing is ASCII, so the decisions are the same as with full Unicode lower-casing. The model does not say what other characters lower-case to.
- Symbolic links: `Path.resolve()` follows them on the real filesystem. The model resolves `.` and `..` lexically only.
- The working directory used to resolve a relative path is a parameter (`cwd`), not read from the process.
- POSIX paths that begin with exactly two slashes (which pathlib keeps as `//`) and Windows paths are not modelled.
- Path parts are modelled as strings. The callers pass strings; `Path` objects as parts are not modelled.
- AgentEvent: only `type` (`kind`), `request_id` and `timestamp` are kept, with the timestamp as an integer. The free-form payload fields do not affect the reducer or the status.
- `Action`: the union has two members in the type system. `OtherAction` stands for any other object dispatched at run time whose type is neither `ADD_EVENT` nor `RESET`; the reducer's default branch handles it. Its fields are not modelled.
- The `Header` render function and the rest of the React interface (App.tsx, ChatWindow.tsx, DebugSidebar.tsx, ToolSidebar.tsx): presentation only.
- The file tools in file-ops_server/tools/file_ops.py and server/tools/file_ops.py: filesystem I/O through pathlib and global sandbox state.
- The client orchestration loop, intent gate, tool-call extraction and conversation memory: the `process` and `get_all_tools` methods of client/mcp_client.py are not part of this model.
- Server connection and session handling (client/mcp_client.py, client/main.py), the stdin/stdout bridge (client/bridge.py) and the Rust host (mcp-app/src-tauri/src/main.rs): process, stream and thread plumbing.
- The Ollama wrapper (client/ai/ollama.py) and browser automation: calls into external libraries. Of browser_server/tools/tools.py and browser_server/utils/browser.py, only which URL `open_url` navigates to, and its reply, are modelled. Starting the browser, `get_page_content` and `take_screenshot` are not.
- BrowserTools.OpenUrlScreened: a ValueError from URL parsing would leave the tool as an exception. Here it is a refusal whose reply is the error text.
- The server entry points (browser_server/main.py, file-ops_server/main.py, server/main.py): one-line launchers.

## Findings

| source | as written | input that shows it | evidently intended | confidence | as-written member | corrected member |
|---|---|---|---|---|---|---|
| browser_server/tools/tools.py:9-11 | `open_url` passes its URL to the browser without calling `validate_url`, which nothing else calls either | `http://bit.ly/x.exe`: refused by the validator, opened by the tool | screen each URL with `validate_url` first, as its docstring describes | medium (not executed) | BrowserTools.OpenUrlSkipsScreening | BrowserTools.OpenUrlScreened |
| server/utils/paths.py:7 | containment is a string-prefix test on the text of the paths | root `/a/sandbox`, part `/a/sandbox2/x`: admitted | refuse sibling directories whose name extends the root's name, as the file-operations server's version does by comparing components | high (not executed) | LegacySandboxPaths.SiblingAdmitted | SandboxPaths.SiblingRefused |
