# Cookie-sticky A/B path rewriting, in Dafny

A model of `serve-with-cookies.js`. This small development proxy sits in front of a static-site
server and sends every request for a page under an A/B experiment to one of two variant paths. The choice
comes from the `ab-test-variant` cookie or, when that cookie is missing, from a coin flip. A fresh
choice is pinned with a `Set-Cookie` response header.

The model has three parts:

- **Table expansion** (`rewrites.dfy`, module `Rewrites`). `createRewritesForVariants` is an
  imperative method over a `Dictionary` class. The class holds the object's keys in insertion
  order and a map from key to config. A config (`{a: path, b: path}`) is a sequence of
  (key, path) pairs with distinct keys. The method is proved equal to the specification
  functions `Expand` and `ExpandOrder` over the snapshot `Object.entries` takes before the loop.
  Lemmas about those functions say what the expanded table holds:
  - every variant path becomes a key;
  - no key is lost;
  - at each key, the config of the last entry that lists it wins;
  - under the builder's input constraint, the table is symmetric.
- **Path resolution and header decoration** (`proxy.dfy`, module `Proxy`). `proxyReqPathResolver`
  and `userResHeaderDecorator` are pure functions. The random draw is a boolean `coin`, and
  `req.variant` is returned beside the path. `cookies.dfy` (module `Cookies`) gives the
  `Set-Cookie` value the decorator writes. It also gives `CookiePair`, a model of the browser
  rather than of the script: the name-value pair a browser keeps from a `Set-Cookie` value
  (section 5.2 of RFC 6265). `StickyAssignment` relies on it to show that an assignment sticks
  across requests.
- **The startup table** (`example.dfy`, module `Example`). This is the literal at lines 24-33,
  its six-key expansion, and example requests against it.

`wrappers.dfy` holds `Option`. `None` is JavaScript's `undefined`.

## Model

| member | source | states |
|---|---|---|
| `Rewrites.Lookup` | serve-with-cookies.js:54 | `config[key]` is `undefined` exactly when the config has no own property `key`; otherwise it is that property's path |
| `Rewrites.EntriesOf` | serve-with-cookies.js:10 | the snapshot lists each key in insertion order with the config it holds |
| `Rewrites.RegisterClosedForm` | serve-with-cookies.js:11-13 | the inner loop sets every variant path of one config to that config and leaves every other key as it was |
| `Rewrites.ExpandAt` | serve-with-cookies.js:10-13 | after expansion, a key is present iff it was present or some snapshot entry lists it; it holds the config of the last entry listing it, or else its original config (so a canonical key is overwritten only when a later-written variant path equals it) |
| `Rewrites.LastOwnerLatest` | serve-with-cookies.js:10-12 | the write that sticks at a path comes from the latest snapshot entry that lists it |
| `Rewrites.LastOwnerExists` | serve-with-cookies.js:10-12 | some write lands on a path iff some snapshot entry lists it |
| `Rewrites.ExpandKeys` | serve-with-cookies.js:10-16 | expansion keeps every original key, makes every listed variant path a key, and adds no other key |
| `Rewrites.ExpandSymmetric` | serve-with-cookies.js:9-17 | when variant paths are distinct across entries and never canonical, the canonical path and each of its variant paths hold that entry's config |
| `Rewrites.AddKeysExtends` | serve-with-cookies.js:12 | assigning to keys appends only new keys, keeps existing keys in place and never repeats a key |
| `Rewrites.ExpandOrderExtends` | serve-with-cookies.js:10-14 | after the loop the original keys still come first, in their order, with no key repeated |
| `Rewrites.Dictionary.constructor` | serve-with-cookies.js:24 | the empty object: no keys |
| `Rewrites.Dictionary.Snapshot` | serve-with-cookies.js:10 | `Object.entries` has one entry per key, in insertion order, each with the config held at that key |
| `Rewrites.Dictionary.Set` | serve-with-cookies.js:12 | `dictionary[to] = config` sets that one key, appends it to the key order if it is new, and keeps the object well formed |
| `Rewrites.RegisterAll` | serve-with-cookies.js:11-13 | the inner loop leaves the table and key order equal to those after writing the config to each listed path in turn, and keeps the object well formed |
| `Rewrites.CreateRewritesForVariants` | serve-with-cookies.js:9-17 | returns the same dictionary it was given, with table and key order equal to the expansion of the snapshot taken before the loop; entries added by the loop are not revisited |
| `Cookies.SetCookieHeader` | serve-with-cookies.js:60 | the header value is the cookie name `ab-test-variant`, then `=`, then the variant, then `; Path=/` |
| `Cookies.SetCookieRoundTrip` | serve-with-cookies.js:60 | the header `ab-test-variant=<v>; Path=/` sets the cookie `ab-test-variant` to exactly `v` |
| `Rewrites.ValuesLookup` | serve-with-cookies.js:11 | `Object.values(config)` (`Values`) has one path per own property, and the i-th is what `config[key]` reads for the i-th key |
| `Proxy.VariantCookie` | serve-with-cookies.js:48 | `req.cookies["ab-test-variant"]` is present exactly when the request carries that cookie, and then holds its value |
| `Proxy.Truthy` | serve-with-cookies.js:49 | the `!variant` test (and the `if (variant)` test at line 59): the only falsy values are `undefined` and the empty string |
| `Proxy.SelectVariant` | serve-with-cookies.js:48-52 | a truthy cookie value is used as is; otherwise the key is freshly drawn, is "a" or "b", and is "a" exactly when the coin is true |
| `Proxy.ResolvePath` | serve-with-cookies.js:42-56 | an unmapped URL yields `originalUrl` and sets no variant; a mapped URL with a truthy cookie yields `config[cookie]` and sets no variant; a mapped URL without one sets variant "a" or "b" from the coin and yields `config[variant]`; the result is `undefined` iff the URL is mapped and the chosen key is not a key of its config |
| `Proxy.DecorateHeaders` | serve-with-cookies.js:57-64 | when a variant was set, `Set-Cookie` becomes `ab-test-variant=<v>; Path=/`; otherwise the headers are unchanged; no other header is added, removed or changed |
| `Proxy.StickyAssignment` | serve-with-cookies.js:42-64 | a request without a truthy cookie (none, or an empty one) gets a fresh variant and a cookie holding it; a later request carrying that cookie, to any path mapped to the same config, goes to the same upstream path and gets no new cookie, whatever its coin |
| `Proxy.SiblingPathsResolveAlike` | serve-with-cookies.js:19-23 | after expansion under the input constraint, requesting a canonical path or one of its variant paths gives the same path and the same assignment |
| `Example.AB` | serve-with-cookies.js:25-32 | a config `{a: pathA, b: pathB}` looks up `pathA` for "a" and `pathB` for "b", and lists its values in that order |
| `Example.LiteralExpansion` | serve-with-cookies.js:24-33 | expanding the startup literal maps the page path and both page variant paths to the hello-world config, and the page-data path and both page-data variant paths to the page-data config |
| `Example.LiteralKeyOrder` | serve-with-cookies.js:24-33 | the expanded dictionary has six keys: the two canonical paths, then the four variant paths in listed order |
| `Example.LiteralMeetsConstraint` | serve-with-cookies.js:24-33 | the startup literal lists entries of its own table, and no variant path is listed twice or equals a canonical path |
| `Example.LiteralIsDisjoint` | serve-with-cookies.js:24-33 | the startup literal meets the builder's input constraint, so after expansion each variant path is a key holding the same config as its canonical path |
| `Example.BuildDictionary` | serve-with-cookies.js:24-33 | the dictionary built at startup is well formed and holds exactly the six keys and configs above |
| `Example.CookieWinsOverRequestedVariant` | serve-with-cookies.js:48-55 | a request for variant a's page data that carries cookie `b` is sent to variant b's page data, with no new cookie |
| `Example.UnmappedPassesThrough` | serve-with-cookies.js:43-46 | `/favicon.ico` is forwarded unchanged, whatever the cookies, and the headers are left alone |
| `Example.FreshHelloWorld` | serve-with-cookies.js:49-60 | `/hello-world/` without a cookie goes to variant a with cookie `ab-test-variant=a; Path=/` on heads, and to variant b with cookie `b` on tails |

## Left out

- Server plumbing (lines 1-7, 35, 37, 68-72): the Express app, `app.listen`, the port constant and the `console.log` output. These are I/O.
- Forwarding itself (lines 2, 41): the `express-http-proxy` call to `http://localhost:9000`. The model stops at the path the resolver returns. What the proxy library does with an `undefined` path is not modelled.
- `req.url` and `req.originalUrl` are separate inputs. With the middleware mounted at `/` they are the same string, query string included. So a mapped page requested with a query string is not in the table and passes through.
- Cookie parsing by `cookie-parser` (line 37) is left out: decoding, signed cookies, and `j:` JSON cookies, which can yield non-string values. `req.cookies` is a map from name to string.
- `Cookies.CookiePair`: the whitespace trimming of RFC 6265 and the cookie attributes (`Path`) are not modelled. The browser's cookie store and its scoping are not modelled either. The values the proxy writes ("a", "b") contain no whitespace.
- `Math.random() <= 0.5` (line 50) is the `coin` parameter. The 50/50 split is a statistical property and is not modelled.
- `Rewrites.Lookup`: a cookie value that names an `Object.prototype` member (`toString`, `constructor`, `__proto__`, ...) reads an inherited property in JavaScript rather than `undefined`. The model treats it as `undefined`, like any other unknown key. For the same reason, a request URL naming such a member is treated as unmapped. Express request URLs begin with `/`, so they cannot name one.
- A config is compared by value, not by object identity. No config is mutated after the table is built, so "the same config object" and "an equal config" cannot be told apart.
- JavaScript lists integer-like keys first, whatever their insertion order. The model uses insertion order only. Paths begin with `/`, so they are never integer-like.
- Header names are case-sensitive map keys. Node lower-cases the upstream's header names, so an upstream `set-cookie` header would sit beside the `Set-Cookie` key the decorator writes. The model keeps both, as the code does.
- The event loop's concurrent handling of requests is left out. Each request's decision is sequential, and the table is only read after startup.

In three places the model follows the code where a reader might expect otherwise:
- A fresh assignment is always "a" or "b", whether or not the config has those keys.
- An unmapped request is forwarded with `originalUrl`, query string included.
- A truthy cookie value is used unvalidated, so an unknown value gives `undefined`.
