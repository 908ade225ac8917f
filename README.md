# Credit attribution registry

A Dafny model of the attribution `Credit` of the engine (`packages/engine/Source/Core/Credit.js`).
A credit is a piece of html shown in the credit display, with a flag that says whether it is shown
on screen or in the pop-over. Every credit gets an id from a table shared by all credits. The table
interns html strings: the first credit built from a string takes the next value of a counter, and
later credits with the same string reuse that id. Two credits are equal when they are the same object,
or when both exist and have the same id and the same flag. The id stands in for the html, so
comparing ids is cheaper than comparing strings.

Files:

- `wrappers.dfy` — module `Wrappers`: `Option`, which stands for JavaScript's `undefined` in optional
  arguments and fields. `GetOr` is the `??` operator.
- `strings.dfy` — module `Strings`: `IndexOf`, the substring search that `isIon` uses
  (`String.prototype.indexOf`). It returns the first occurrence, or -1 exactly when there is none.
- `credit.dfy` — module `Credits`:
  - `Table` is the value of the module-level table `creditToId` together with the counter `nextCreditId`.
    `TableValid` is its invariant, and the pure function `Intern` is the lookup-or-allocate step of
    the constructor.
  - `CreditRegistry` is the mutable registry. The source keeps the table and counter as module-level
    variables; here the registry is one object that every operation that builds a credit receives.
  - `Credit` is a class. `id` and `html` are `const` (the source exposes them through read-only
    getters); `showOnScreen` has a setter, and `element` is a cache that is filled on first use.
  - `Equals`, `EqualTo`, `IsIon`, `Clone` and `GetIonCredit` are the static and prototype functions.
  - Lemmas about interning and equality follow the class. Symmetry of `Equals` is the separate lemma
    `EqualsSymmetric`, because a predicate's own postcondition cannot call the predicate with its
    arguments swapped.

The getters `html`, `id` and `showOnScreen` (Credit.js:52-83) are the fields themselves.

## Model

| member | source | states |
|---|---|---|
| Credits.EmptyTable | packages/engine/Source/Core/Credit.js:5-6 | the table starts empty with the counter at 0, which satisfies the registry invariant |
| Credits.Intern | packages/engine/Source/Core/Credit.js:26-34 | after the lookup, the html maps to the returned id and every earlier entry is kept. Known html: the id is the stored one, and the table and counter are unchanged. New html: the id is the old counter, exactly that key is added, and the counter grows by one. The invariant is preserved: ids are injective, below the counter, and as many as the keys |
| Credits.InternIdempotent | packages/engine/Source/Core/Credit.js:29-30 | building a second credit from the same html gives the same id and changes nothing |
| Credits.InternAll | packages/engine/Source/Core/Credit.js:26-34 | building any sequence of credits from a valid registry yields one id per credit, keeps the invariant and every earlier entry, and leaves each credit's html mapped to the id that credit received |
| Credits.SameIdIffSameHtml | packages/engine/Source/Core/Credit.js:26-39 | in any sequence of constructions, two credits get the same id if and only if they have the same html |
| Credits.CreditRegistry.constructor | packages/engine/Source/Core/Credit.js:5-6 | a fresh registry is the empty table and satisfies the invariant |
| Credits.Credit.constructor | packages/engine/Source/Core/Credit.js:22-43 | the id and the new registry state are those given by `Intern`, and the invariant is kept. `html` is the argument. An omitted flag gives `false` and a given flag is kept. No element is cached yet |
| Credits.Credit.SetShowOnScreen | packages/engine/Source/Core/Credit.js:76-83 | the setter changes only `showOnScreen`; `id`, `html` and the cached element stay the same |
| Credits.Credit.Element | packages/engine/Source/Core/Credit.js:91-111 | the first call builds a wrapper element carrying the credit's id, the inline display style and the sanitised markup, and caches it. Later calls return the cached element unchanged |
| Credits.Credit.Equals | packages/engine/Source/Core/Credit.js:121-129 | every credit equals itself, and two undefined credits are equal; a defined credit never equals undefined; credits with different ids are never equal |
| Credits.Credit.EqualTo | packages/engine/Source/Core/Credit.js:137-139 | `credit.equals(other)` agrees with `Credit.equals(credit, other)` and is false for undefined |
| Credits.EqualsSymmetric | packages/engine/Source/Core/Credit.js:121-129 | equality does not depend on argument order |
| Credits.EqualsTransitive | packages/engine/Source/Core/Credit.js:121-129 | equality is transitive, so it is an equivalence relation |
| Credits.EqualsIffSameContent | packages/engine/Source/Core/Credit.js:38-41 | for credits issued by one valid registry, comparing ids is the same as comparing html: they are equal if and only if they have the same html and the same flag |
| Credits.IssuedStable | packages/engine/Source/Core/Credit.js:29-34 | a credit's id stays the registry's id for its html as the registry grows |
| Strings.IndexOfFrom | packages/engine/Source/Core/Credit.js:145 | the result is -1 or the first position at or after `from` where the substring occurs; -1 means it occurs nowhere from `from` on |
| Strings.IndexOf | packages/engine/Source/Core/Credit.js:145 | `indexOf` returns -1 exactly when the substring does not occur, and otherwise its first occurrence |
| Credits.Credit.IsIon | packages/engine/Source/Core/Credit.js:144-146 | `isIon()` holds exactly when the html contains `"ion-credit.png"` |
| Credits.Credit.GetIonCredit | packages/engine/Source/Core/Credit.js:153-159 | a new credit with the attribution's html, interned like any other, whose flag is true exactly when `collapsible` is defined and false, and whose element cache is empty |
| Credits.Credit.Clone | packages/engine/Source/Core/Credit.js:167-171 | undefined is cloned to undefined and the registry is unchanged. A defined credit gives a fresh credit with the same html and flag and an empty element cache. When the original was issued by the registry, the clone equals it and the table and counter do not change |

## Left out

- Module-level state: the table and the counter are module-level variables in the source. Here they are fields of a `CreditRegistry` object that the constructor, `Clone` and `GetIonCredit` take as an argument. A program has exactly one such registry.
- Plain-object table: `creditToId` is a plain object literal (Credit.js:6). Html strings such as `"constructor"` or `"__proto__"` therefore find an inherited, defined value at line 29 instead of getting a fresh id. The model uses a true map, so every string not yet interned gets a fresh id.
- Debug type check: the `Check.typeOf.string` call on `html` (Credit.js:24) is a debug-only check. The Dafny type `string` gives it.
- Credits.Credit.Element: the sanitiser (DOMPurify) and the DOM calls are foreign code. The sanitised markup is a parameter, and the element is a value recording its class name, credit id, display style and markup. Setting `target="_blank"` on the element's links (Credit.js:102-105) is not modelled.
- Credits.Credit.GetIonCredit: `collapsible` is modelled as an optional boolean. JavaScript's `!` on other truthy or falsy values (numbers, strings) is not modelled.
- Credits.Credit.SetShowOnScreen: the flag is a boolean. A non-boolean value, whether assigned through the setter or passed to the constructor (`new Credit(html, 1)`, Credit.js:36), is not modelled. Nor is the `?? false` that `clone` would apply to a flag set to `null` or `undefined`.
- Credits.Credit.Equals: a Dafny `null` stands for both JavaScript `undefined` and `null`, which the source tells apart. In the source, `Credit.equals(null, undefined)` is false, because `null === undefined` is false and neither value is defined; the model can only compare `null` with `null`, which is equal.
- Credits.Credit.Clone: for the same reason, `Credit.clone(null)` in the source returns `undefined`, which is not `===` to `null`; the model returns `null` for both.
- Strings.IndexOf: Dafny's `string` is a sequence of Unicode scalar values, while JavaScript strings are sequences of UTF-16 code units. Html containing a lone surrogate cannot be a table key in the model, and after a character outside the Basic Multilingual Plane `IndexOf` returns a different position from `String.prototype.indexOf`. The `!== -1` test of `isIon` does not depend on the position.
- Ids: JavaScript numbers are exact only up to 2^53. The counter is an unbounded `nat`.
- The texture loader, `ITwinData.js`, `StyleExpression.js` and the KML tour are not part of this model. `ITwinData.js` is network glue. `StyleExpression.js` is an abstract interface whose methods all throw.
