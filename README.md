# devproxy path mappings, in Dafny

This project models the path-mapping core of `devproxy`, a local HTTPS
reverse proxy for development. The core is `devproxycmd/mapping.go`. It
covers the following steps:

- **Rules.** `PathMaps.Set` parses one `path = url` rule. It splits the
  rule at the first `=` and trims both sides. It then checks that the
  target has an `http` or `https` scheme and a host that is neither empty
  nor starts with `:`. It stores the cleaned source path (keeping a
  trailing slash) and the target (path `/` when empty, with a trailing
  slash when the written target had one). Finally it appends the rule to
  the list.
- **Environment.** `PathMaps.FromEnviron` reads the `DEVPROXY_MAP` and
  `DEVPROXY_MAP_*` entries of an environment. It hands each value to
  `Set` and stops at the first rule that fails.
- **Table.** `NewProxyMap` does four things:
  - It fills a table from path to mapping; a later mapping with the same
    path wins.
  - It adds the alias `path + "/"` for every key without a trailing
    slash, but never over an existing key.
  - It registers one mux handler per table key.
  - It gives each mapping a reverse proxy. Every mapping whose target has
    the same scheme, userinfo and host shares one transport.
- **Handlers.** `ProxyMap.handle` registers the mapping bare under `/`.
  Under any other path it registers it behind `http.StripPrefix` of the
  path without its trailing slash.
- **Requests.** `PathMap.ServeHTTP` trims the mapping's path off the
  request-URI. The proxy's `Rewrite` closure then builds the outbound
  request:
  - the Host is the target's host;
  - the URL takes its scheme, userinfo and host from the target;
  - the URL path is `url.JoinPath(target path, inbound path)`;
  - the query is the inbound query;
  - the request-URI is that of the new URL.

The Go library functions this code relies on are written out as pure
functions. Each follows the library's rules on the inputs this code gives
it, except for the parts listed under "## Left out". The largest of these
is percent-escaping: the model checks escapes where `url.Parse` checks
them, but it never decodes them and never adds them when it prints a URL.
Its paths and request-URIs therefore agree with Go's only for paths that
hold no `%` and no character that Go escapes in a path.

| module | Go functions |
|---|---|
| `Strings` | `strings.TrimSpace`, `HasPrefix`, `HasSuffix`, `TrimPrefix`, `TrimSuffix`, `SplitN(s, "=", 2)` |
| `Paths` | `path.Clean`, `path.Join` and the path rule of `URL.JoinPath` |
| `Urls` | `url.Parse`, `URL.String`, `URL.RequestURI` |
| `Routing` | `http.StripPrefix`, `url.JoinPath` |

The mapping code itself is modelled in two modules:

- **`Mapping`** has the rule parser and the class `PathMaps`. The class holds the rule list that `Set` and `FromEnviron` append to in place.
- **`ProxyMaps`** has the class `ProxyMap`:
  - The fields are the table, the transports, the transport counter, the proxies and the mux.
  - There is one method per loop of `NewProxyMap`. Every method keeps the invariant `Valid`: every table value, handler and proxy refers to one of the mappings.
  - Each method is proved against a pure specification function: `PathIndex`, `Aliased`, `MuxFor` and `PoolFold`.

In this model:
- A `*PathMap` is named by its position in the list of mappings, so two table entries holding the same `*PathMap` hold the same number.
- A transport is a number handed out by a counter.
- Go's map iteration order is unspecified. Each loop over a map picks its next key with `:|`, so every postcondition holds for every order.

Two facts about the code that the model makes explicit:

- **Duplicate paths.** A builder might well report two mappings with the same path as a configuration error. The code does not: it silently keeps the last one. The model follows the code (`ProxyMaps.PathIndex`).
- **Request-URI trim.** The trim in `PathMap.ServeHTTP` has no effect on what is forwarded. `Rewrite` sets the outbound request-URI from the new URL (`Routing.DispatchIgnoresRequestURI`).

## Model

| member | source | states |
|---|---|---|
| Strings.Cut | devproxycmd/mapping.go:31-35 | `SplitN(arg, "=", 2)` gives two parts exactly when there is a `=`, and the parts are what comes before the first `=` and after it |
| Strings.TrimSpaceSlice | devproxycmd/mapping.go:37-40 | trimming keeps a slice of the input, drops only white space on either side, and leaves no space at either end |
| Strings.TrimPrefix | devproxycmd/mapping.go:125 | the input is the prefix followed by the result when it starts with the prefix, and is returned unchanged otherwise |
| Strings.TrimSuffix | devproxycmd/mapping.go:242-244 | the input is the result followed by the suffix when it ends with it, and is returned unchanged otherwise |
| Paths.Clean | devproxycmd/mapping.go:71 | `path.Clean`, defined by splitting at slashes, resolving `.` and `..`, and printing; its properties are `CleanShape`, `CleanIdempotent`, `CleanTrailingSlash` and `CleanOfNames` |
| Paths.Join | devproxycmd/mapping.go:217 | `path.Join` of two parts: the clean form of the non-empty ones joined by a slash, or empty; used only by `JoinUrlPath` |
| Paths.JoinUrlPath | devproxycmd/mapping.go:217 | the path rule of `URL.JoinPath`: join and clean, keep a trailing slash of the element, and keep a base that is not rooted unrooted; its properties are `JoinUrlPathShape` and `JoinUrlPathOrdinary` |
| Paths.SplitJoin | devproxycmd/mapping.go:71 | splitting a path at its slashes and joining the names again are inverse |
| Paths.ResolveCanonical | devproxycmd/mapping.go:71 | `path.Clean`'s name resolution leaves no `.`, no empty name and no `..` after a name (none at all under the root) |
| Paths.ResolveCanonicalFixpoint | devproxycmd/mapping.go:71 | resolution leaves canonical names unchanged |
| Paths.CleanShape | devproxycmd/mapping.go:71 | a cleaned path is never empty, ends in a slash only when it is `/`, is rooted exactly when the input is, and has no doubled slash |
| Paths.CleanIdempotent | devproxycmd/mapping.go:71 | cleaning a cleaned path changes nothing |
| Paths.CleanTrailingSlash | devproxycmd/mapping.go:71-75 | a trailing slash makes no difference to the cleaned path |
| Paths.CleanOfNames | devproxycmd/mapping.go:71 | a rooted path made of ordinary names and single or doubled slashes cleans to `/` followed by those names joined by single slashes |
| Paths.JoinUrlPathShape | devproxycmd/mapping.go:217 | joining onto a rooted base gives a rooted path with no doubled slash, cleaning to the clean form of base + `/` + elem, ending in a slash exactly when elem does or the result is `/` |
| Paths.JoinUrlPathOrdinary | devproxycmd/mapping.go:217 | for a base and an element made of ordinary names, the join is the base names followed by the element names, whether or not the base ends with a slash and the element starts with one, and it keeps the element's trailing slash: no slash is doubled or lost |
| Paths.JoinUrlPathExample | devproxycmd/mapping.go:217 | `/v1/` joined with `/users` is `/v1/users` |
| Urls.Parse | devproxycmd/mapping.go:46 | `url.Parse` without decoding: cut the fragment, reject control characters, read the scheme, then the authority (host, port, userinfo and its escapes), the path and its escapes, and last the fragment's escapes; its properties are `ParsedParts`, `ParseRejectedHost`, `ParseRejectedPath` and `ParseOriginKey` |
| Urls.EscapeScanValid | devproxycmd/mapping.go:46 | the escape check `url.Parse` runs on a path, a userinfo and a fragment passes exactly when every `%` is followed by two hex digits |
| Urls.UserinfoEscapesValid | devproxycmd/mapping.go:46 | checking the username and the password apart, as `parseAuthority` does, accepts exactly the userinfo whose every `%` is followed by two hex digits |
| Urls.ParseRejectedPath | devproxycmd/mapping.go:46-49 | after an accepted host, a path with a malformed escape fails the whole URL with the escape error of the path |
| Urls.ParseRejectsBadEscape | devproxycmd/mapping.go:46-49 | `http://h/%zz` is not a URL: `%zz` is no escape |
| Urls.AuthorityRejectsBadUserinfo | devproxycmd/mapping.go:46-49 | the authority `u%@h` is rejected: the `%` at the end of the userinfo begins no escape |
| Urls.ParseRejectsBadFragment | devproxycmd/mapping.go:46-49 | `/a#%g` is not a URL: the fragment's `%g` is no escape, and the fragment is checked after the rest has parsed |
| Urls.ParseWithFragment | devproxycmd/mapping.go:46 | the fragment is the text after the first `#`, checked and set only once the rest has parsed |
| Urls.ParseHost | devproxycmd/mapping.go:46 | `parseHost`: bracket and port checks, then the host-mode escape check; its properties are `ParseHostChars`, `HostSpaceRejected`, `HostEscapeRejected` and `HostEscapeAccepted` |
| Urls.GetSchemeFinds | devproxycmd/mapping.go:46 | `url.Parse` finds the scheme before the first `:` when that prefix is a valid scheme |
| Urls.ToLowerScheme | devproxycmd/mapping.go:46 | the parsed scheme is lower case, and a lower-case scheme is kept as written |
| Urls.ParsedParts | devproxycmd/mapping.go:46-49 | a parsed URL has a lower-case scheme, a well-formed host (a valid port, and no ASCII character other than letters, digits, `-._~!$&'()*+,;=:[]<>"` and valid `%` escapes) and well-formed userinfo (userinfo characters only, every `%` followed by two hex digits), and a path with no `?`, `#` or control character that is rooted whenever there is a host. Every `%` in the path and in the fragment is followed by two hex digits |
| Urls.ParseHostChars | devproxycmd/mapping.go:46 | a host `url.Parse` accepts is kept as written, and its ASCII characters other than `%` are letters, digits or `-._~!$&'()*+,;=:[]<>"` |
| Urls.HostSpaceRejected | devproxycmd/mapping.go:46 | a space or a vertical bar in a host is rejected as an invalid host character |
| Urls.HostEscapeRejected | devproxycmd/mapping.go:46 | an unfinished escape, or an escape of an ASCII byte other than `%25`, is rejected in a host |
| Urls.HostEscapeAccepted | devproxycmd/mapping.go:46 | `%25` and escapes of bytes from 0x80 up pass in a host, which is kept as written |
| Urls.ParseRejectedHost | devproxycmd/mapping.go:46-49 | a host that is rejected fails the whole URL with the same error, whatever path follows it |
| Urls.ParseRejectsSpaceInHost | devproxycmd/mapping.go:46-49 | `http://a b/` is not a URL: the space in its host is rejected |
| Urls.ParsePlainPath | devproxycmd/mapping.go:217 | `url.JoinPath` parses a plain rooted base (no `?`, `#` or control character, every `%` followed by two hex digits) as a URL with nothing but that path |
| Urls.PathOnlyString | devproxycmd/mapping.go:217 | a URL with nothing but a rooted path prints as that path |
| Urls.UrlString | devproxycmd/mapping.go:198 | `URL.String` without escaping (see "## Left out"); its round trips are `PathOnlyString` and `ParseOriginKey` |
| Urls.OriginKey | devproxycmd/mapping.go:192-198 | the transport key: the printed URL of the target's scheme, userinfo and host; its properties are `ParseOriginKey` and `OriginKeyInjective` |
| Urls.ParseOriginKey | devproxycmd/mapping.go:192-198 | the transport key (the printed scheme, userinfo and host) parses back to exactly those three parts |
| Urls.OriginKeyInjective | devproxycmd/mapping.go:192-198 | two targets have the same transport key exactly when they have the same scheme, userinfo and host |
| Urls.RequestURI | devproxycmd/mapping.go:231 | `URL.RequestURI` without escaping (see "## Left out"): the path (`/` when empty), or the opaque part for a rootless URL, then `?` and the query when it is non-empty; its property is `RequestURISplits` |
| Urls.RequestURISplits | devproxycmd/mapping.go:231 | the outbound request-URI splits at its first `?` into the path (`/` when empty) and the query |
| Mapping.SourcePath | devproxycmd/mapping.go:71-75 | the stored source path: the clean form, with the written trailing slash put back; its property is `SourcePathShape` |
| Mapping.ParseRuleWith | devproxycmd/mapping.go:30-80 | `PathMaps.Set`'s checks in order, with the target read by a given URL parser; its properties are the `ParseRule*` lemmas |
| Mapping.ParseRule | devproxycmd/mapping.go:30-80 | `PathMaps.Set`'s checks with the target read by `url.Parse`; its property is `RuleAccepted` |
| Mapping.RuleSides | devproxycmd/mapping.go:31-40 | a rule has two sides exactly when it holds a `=` |
| Mapping.SourcePathShape | devproxycmd/mapping.go:71-75 | the stored source path has the clean form of the written one, is rooted exactly when it is, ends in a slash exactly when it does (or is `/`), has no doubled slash, and storing it again changes nothing |
| Mapping.ParseRuleSeparator | devproxycmd/mapping.go:31-35 | whatever parser reads the target, `Set` fails with the missing-separator error exactly when the rule has no `=` |
| Mapping.ParseRuleEmptyPath | devproxycmd/mapping.go:42-44 | whatever parser reads the target, `Set` fails with the empty-path error exactly when there is a `=` and only white space before it |
| Mapping.ParseRuleAcceptance | devproxycmd/mapping.go:30-69 | whatever parser reads the target, `Set` accepts a rule exactly when it has a `=`, a non-empty source path, and a target that parses with scheme `http` or `https` and a host neither empty nor starting with `:` |
| Mapping.ParseRuleTargetErrors | devproxycmd/mapping.go:46-65 | whatever parser reads the target, each target error names its cause: the parse error, the empty scheme, the other scheme, or the missing host |
| Mapping.ParseRuleAccepts | devproxycmd/mapping.go:46-80 | with a parser that guarantees what `url.Parse` does, an accepted rule stores the source path in stored form and the parsed target with only its path changed. The path is rooted; it is `/` when the parsed path was empty, and it ends in a slash whenever the written target does |
| Mapping.UrlParseWell | devproxycmd/mapping.go:46 | `url.Parse` is such a parser: every URL it returns has a lower-case scheme, a well-formed host (valid port, host characters and escapes only) and userinfo, and a path without query, fragment or control character, rooted whenever there is a host |
| Mapping.RuleAccepted | devproxycmd/mapping.go:30-80 | every rule `Set` accepts has a non-empty source path and an `http` or `https` target with a well-formed host (valid port, host characters and escapes only), well-formed userinfo, and a rooted path whose every `%` is followed by two hex digits |
| Mapping.RuleRejectsBadEscape | devproxycmd/mapping.go:46-49 | `Set` refuses the rule `/x=http://h/%zz` as a bad URL, with the escape error of `%zz` |
| Mapping.RuleSidesAt | devproxycmd/mapping.go:31-40 | a rule is split at its first `=` and both sides are trimmed |
| Mapping.AcceptedOrigin | devproxycmd/mapping.go:55-65 | an accepted target's transport key parses back to its scheme, userinfo and host |
| Mapping.PathMaps.Set | devproxycmd/mapping.go:30-85 | on success exactly one rule is appended at the end and nothing else changes; on failure the error is returned and the list is unchanged |
| Mapping.LineEntry | devproxycmd/mapping.go:94-105 | a line without `=` is skipped, and a line read as a rule has a key that is `DEVPROXY_MAP` or starts with `DEVPROXY_MAP_` |
| Mapping.LineEntryReads | devproxycmd/mapping.go:94-105 | a line is split at its first `=`: it is read as a rule exactly when the trimmed key before it names a rule, and the entry is that trimmed key with the trimmed value after it |
| Strings.CutAtFirst | devproxycmd/mapping.go:94 | `SplitN(line, "=", 2)` of a key with no `=`, a `=` and a value gives back that key and value |
| Mapping.PathMaps.FromEnviron | devproxycmd/mapping.go:92-113 | the list grows by exactly the rules the environment adds, and the error is the one it stops at |
| Mapping.EnvironWith | devproxycmd/mapping.go:92-113 | the outcome of the `FromEnviron` loop over the lines, for a given line reader and rule parser; its properties are `EnvironFailsAt`, `EnvironPassesAt`, `EnvironStops` and `EnvironFirstFailure` |
| Mapping.Environ | devproxycmd/mapping.go:92-113 | that outcome with lines read by `LineEntry` and rules by `ParseRule`; its property is `EnvironAccepted` |
| Mapping.EnvironFailsAt | devproxycmd/mapping.go:106-108 | the first rule that fails ends the scan with that error and the key it came from, adding nothing more |
| Mapping.EnvironPassesAt | devproxycmd/mapping.go:93-110 | a line that is not a rule is skipped, and a rule that parses is appended |
| Mapping.EnvironStops | devproxycmd/mapping.go:106-108 | once a rule has failed, later lines change nothing |
| Mapping.FirstFailure | devproxycmd/mapping.go:93-110 | the position of the first rule entry that fails, with every entry before it passing |
| Mapping.EnvironFirstFailure | devproxycmd/mapping.go:92-113 | `FromEnviron` adds the rules of the entries before the first failing one, succeeds exactly when none fails, and otherwise reports that one with its key |
| Mapping.MapEntriesOfLines | devproxycmd/mapping.go:93-105 | whatever the reader, the entries are exactly what it makes of some line |
| Mapping.MapEntryKeys | devproxycmd/mapping.go:93-105 | every entry read names a rule by `DEVPROXY_MAP` or a `DEVPROXY_MAP_` key, and the entries are exactly what `LineEntry` makes of some line |
| Mapping.EnvironAccepted | devproxycmd/mapping.go:105-106 | every rule the environment adds passed `Set`'s checks |
| Routing.HandlerFor | devproxycmd/mapping.go:240-246 | the handler `handle` registers keeps the mapping, is bare exactly under `/`, and otherwise strips the path or the path less its one trailing slash |
| Routing.StripPrefix | devproxycmd/mapping.go:243 | on the decoded path only (see "## Left out"): with an empty prefix the request passes unchanged. Otherwise it passes exactly when its path starts with the prefix, and then the prefix followed by the new path is the old path. Query and request-URI are untouched |
| Routing.TrimRequestURI | devproxycmd/mapping.go:124-127 | only the request-URI changes, losing the mapping's path when it starts with it |
| Routing.JoinPathPlain | devproxycmd/mapping.go:217 | `url.JoinPath` on a plain base is the path join of `URL.JoinPath` |
| Routing.JoinPath | devproxycmd/mapping.go:217 | `url.JoinPath` without escaping or decoding (see "## Left out"): parse the base, join its path with the element, print the URL; its property is `JoinPathPlain` |
| Routing.Rewrite | devproxycmd/mapping.go:211-232 | the `Rewrite` closure, without escaping (see "## Left out"): the outbound Host, a URL of the target's origin with the joined path (empty when the join fails) and the inbound query, and the request-URI of that URL; its properties are `RewriteOrigin` and `RewritePath` |
| Routing.RewriteOrigin | devproxycmd/mapping.go:211-232 | the outbound request goes to the target's host and origin (so its transport key is the target's), keeps the inbound query, and has no fragment |
| Routing.RewritePath | devproxycmd/mapping.go:215-230 | for a plain target path, the outbound path is the join of the target path and the inbound path. It is rooted, has no doubled slash, has the clean form of the two joined by a slash, and ends in a slash exactly when the inbound path does or the result is `/` (a target path `/` and an empty inbound path give `/`). The request-URI is that path and the query, unescaped (see "## Left out") |
| Routing.Dispatch | devproxycmd/mapping.go:124-127 | a registered handler at work: strip the prefix when there is one (nothing is forwarded when the path does not start with it), trim the request-URI in `PathMap.ServeHTTP`, then rewrite; its properties are `DispatchRoute` and `DispatchIgnoresRequestURI` |
| Routing.DispatchRoute | devproxycmd/mapping.go:240-247 | under `/` every request is forwarded whole; under any other path a request is forwarded exactly when it starts with the path less its trailing slash, and the join sees the rest |
| Routing.DispatchIgnoresRequestURI | devproxycmd/mapping.go:124-127 | what is forwarded does not depend on the inbound request-URI |
| ProxyMaps.PathIndex | devproxycmd/mapping.go:152-154 | every mapping's path is a key; each key holds a mapping with that path, and no later mapping has it (last write wins) |
| ProxyMaps.ProxyMap.Fill | devproxycmd/mapping.go:152-154 | the fill loop leaves exactly the table `PathIndex` describes |
| ProxyMaps.AliasStep | devproxycmd/mapping.go:157-162 | one turn of the alias loop on a table value; its properties are `AliasStepFor` and `AliasFoldVisits` |
| ProxyMaps.Aliased | devproxycmd/mapping.go:156-163 | the table after the alias loop; its properties are the `Aliased*` lemmas and `AliasFoldAnyOrder` |
| ProxyMaps.AliasStepFor | devproxycmd/mapping.go:156-163 | one turn of the alias loop, whatever key it visits, takes the table for the keys visited so far to the table for those keys and the one visited |
| ProxyMaps.AliasFoldVisits | devproxycmd/mapping.go:156-163 | after any sequence of alias turns, the table holds the originals plus the aliases of the original keys visited so far |
| ProxyMaps.AliasFoldAnyOrder | devproxycmd/mapping.go:156-163 | every visiting order that covers all original keys gives the same table, even when it repeats keys or visits added aliases |
| ProxyMaps.ProxyMap.AddAlias | devproxycmd/mapping.go:157-162 | one turn of the alias loop: the alias `path/` of a key without a trailing slash, pointing where the key points, unless `path/` is already a key; nothing else changes |
| ProxyMaps.ProxyMap.AddAliases | devproxycmd/mapping.go:156-163 | the alias loop, in whatever order Go visits the keys, leaves exactly that table |
| ProxyMaps.AliasedKeeps | devproxycmd/mapping.go:156-163 | no original entry is overwritten, an explicit `key/` included |
| ProxyMaps.AliasedComplete | devproxycmd/mapping.go:156-163 | every key without a trailing slash has its `key/` alias afterwards |
| ProxyMaps.AliasedAdds | devproxycmd/mapping.go:156-163 | every added key ends in a slash, comes from one original key without a trailing slash, and points where that key points, so two keys never share an alias |
| ProxyMaps.AliasedKeys | devproxycmd/mapping.go:156-163 | the keys afterwards are the original keys and the aliases of those without a trailing slash |
| ProxyMaps.AliasedIdempotent | devproxycmd/mapping.go:156-163 | an added key never triggers another alias: a second pass changes nothing |
| ProxyMaps.AliasedValues | devproxycmd/mapping.go:156-163 | every entry afterwards points to a mapping some original entry points to |
| ProxyMaps.ProxyMap.Handle | devproxycmd/mapping.go:240-247 | registers the handler for one path, and nothing else changes |
| ProxyMaps.ProxyMap.HandleAll | devproxycmd/mapping.go:178-189 | the handle loop registers every key of the table with its handler, and nothing else |
| ProxyMaps.MuxFor | devproxycmd/mapping.go:178-189 | the mux after the handle loop: every table key with its handler; its properties are `MuxHandlers` and `MuxRoute` |
| ProxyMaps.MuxHandlers | devproxycmd/mapping.go:178-189 | each registered path holds the mapping whose path is that path or that path less its slash. It is bare only under `/`, and otherwise stripped by the mapping's path less its trailing slash |
| ProxyMaps.MuxRoute | devproxycmd/mapping.go:240-247 | a request handed to a registered path is forwarded to that mapping's origin exactly when it starts with the mapping's path less its trailing slash (always under `/`). The join sees the rest of the path, and the query is kept |
| ProxyMaps.NumberingAdd | devproxycmd/mapping.go:200-205 | a transport made for a new key takes the next number, keeping one number per key |
| ProxyMaps.PoolTurn | devproxycmd/mapping.go:198-209 | one turn of the pool loop on a pool value; its properties are `PoolStepKnown`, `PoolStepNew` and `PoolTurnValid` |
| ProxyMaps.PoolFold | devproxycmd/mapping.go:191-209 | the pool after turns in a given order; its property is `PoolFoldValid` |
| ProxyMaps.PoolStepKnown | devproxycmd/mapping.go:198-209 | a mapping whose origin has a transport gets a proxy on it, and the pool stays in order |
| ProxyMaps.PoolStepNew | devproxycmd/mapping.go:200-209 | a mapping whose origin has none gets a new transport and a proxy on it, and the pool stays in order |
| ProxyMaps.PoolTurnValid | devproxycmd/mapping.go:191-209 | one turn of the pool loop keeps the pool in order |
| ProxyMaps.PoolFoldValid | devproxycmd/mapping.go:191-209 | after any sequence of turns, there is one transport per distinct origin among the visited mappings and none shared by two origins. Every visited mapping has a proxy toward its target on its origin's transport |
| ProxyMaps.ProxyMap.AddProxy | devproxycmd/mapping.go:191-209 | one turn of the pool loop: the transport of the origin (made on first use) and a proxy on it |
| ProxyMaps.ProxyMap.BuildPool | devproxycmd/mapping.go:191-233 | the pool loop, in whatever order, leaves a pool in order for every mapping in the table |
| ProxyMaps.SharedTransport | devproxycmd/mapping.go:191-207 | two accepted mappings share a transport exactly when their targets have the same scheme, userinfo and host |
| ProxyMaps.ProxyMap.constructor | devproxycmd/mapping.go:143-150 | every table starts empty, so every path, handler and proxy refers to one of the mappings (`Valid`) |
| ProxyMaps.NewProxyMap | devproxycmd/mapping.go:142-238 | the table is the filled table with its aliases, the mux registers every key of it, and there is a pooled proxy for every mapping in it; every path, handler and proxy refers to one of the mappings |

## Left out

- `devproxycmd/run.go` and `devproxycmd/pki.go` are not part of this model. They cover flag parsing, listeners, TLS servers, goroutines and certificate generation: process wiring, concurrency and cryptography.
- The forwarding done by `httputil.ReverseProxy`, `SetXForwarded` and `http.Transport` is left out. It is network I/O; the model keeps the outbound Host, URL and request-URI.
- `http.ServeMux` pattern matching is left out. The longest-match rule and the subtree rule for patterns ending in `/` belong to the library. The model states what is registered under each pattern (`ProxyMaps.MuxHandlers`) and what a handler does with a request handed to it (`ProxyMaps.MuxRoute`). The panics of `ServeMux.Handle` appear only as `Handle`'s requirement that a pattern is not registered twice. No other invalid pattern is modelled.
- The diagnostic listing (`fmt.Printf` of the sorted paths) and `PathMaps.String` are left out. They are output only.
- The `InsecureSkipVerify` TLS setting is left out. It is a constant with no behaviour in the model.
- The `log.Printf` of a failed `url.JoinPath` is left out. It is output only; the model forwards an empty path in that case, as the code does.
- `Urls.Parse` checks that every `%` in the path, the userinfo and the fragment is followed by two hex digits, as `setPath`, `parseAuthority` and `setFragment` do, and fails with the same escape error. It does not decode the escapes. It also leaves out `RawPath`, `OmitHost`, `ForceQuery` and the opaque forms beyond the rootless part. Components are kept as the raw text they were parsed from.
- `Urls.UrlString` prints the userinfo, the host, the path and the fragment as they are held, undecoded. `URL.String` prints the decoded values escaped again. In a path it escapes every byte except letters, digits and `-._~$&+,/:;=@`, and a character from U+0080 up is escaped byte by byte in UTF-8. The two agree only when no component holds a `%` or a character that needs escaping. The origin key holds no path or fragment, so there this concerns only the userinfo and the host.
- `Urls.RequestURI` prints the path as it is held. `URL.RequestURI` prints `EscapedPath()`, the escaped path. The two agree only for a path that needs no escaping.
- `Routing.JoinPath` returns the joined path as written. `url.JoinPath` decodes the base's escapes when it parses it, reads the joined text as escaped text when it sets the new path, and returns the escaped string. When the element holds a malformed escape, `setPath` fails and `URL.JoinPath` keeps the base path; `url.JoinPath` reports no error then. None of this is represented. The model agrees with `url.JoinPath` only for a base and an element that hold no `%` and nothing that needs escaping.
- `Routing.Rewrite` does not represent the double escaping in the code. Line 217 of mapping.go gets from `url.JoinPath` the joined path in escaped form, and line 226 stores that string in `URL.Path`, which holds an unescaped path. `RequestURI()` at line 231 then escapes it again. For the target path `/v1` and the inbound path `/a b`, the code's outbound request-URI is `/v1/a%2520b`, which the upstream server decodes to `/v1/a%20b` rather than `/v1/a b`; the model gives `/v1/a b`. The model is exact only for paths that need no escaping.
- `Routing.StripPrefix` looks at the decoded path only. `http.StripPrefix` also trims the prefix off a non-empty `RawPath`, and answers 404 when the `RawPath` does not start with it. So an inbound `/%61pi/x` under the prefix `/api` gets a 404 from the code, while the model forwards it. The model's request has no `RawPath`.
- `Routing.RewritePath`: its request-URI clause is about the model's unescaped request-URI. The code's request-URI agrees with it only when the joined path needs no escaping (see `Routing.Rewrite`).
- `Urls.ParseHost` checks the host's characters and `%` escapes as `url.Parse` does in host mode, but does not decode the escapes. It leaves out the separate zone-identifier mode for a `%25` inside brackets: such a host is checked in host mode throughout.
- `Routing.RewritePath` is stated only for a target path that parses back as a plain path. A target path beginning with `//` is therefore not covered by this lemma; the function itself covers it.
- `Routing.DispatchRoute` is stated under the same plain-path condition on the target path.
- `ProxyMaps.MuxRoute` is stated under the same plain-path condition on every target path.
- `ProxyMaps.SharedTransport` is stated for accepted mappings only, since only those have a transport key that parses back to its origin.
- `ProxyMaps.NewProxyMap` never fails in the code, so the model returns no error.
- The Go version is not part of this model. The model assumes Go 1.22 or later, where each turn of `for _, p := range pm.Paths` has its own `p`, so each `Rewrite` closure captures its own mapping; the model passes that mapping's target to `Rewrite` directly. Before Go 1.22 every closure would see the last mapping the pool loop visited, and every request would go to that mapping's target.
