# Church site content loader and theme toggle, modelled in Dafny

The site reads Markdown files with front matter from one directory per
content category (`posts`, `pages`), serializes them to MDX, and renders
them. The site also defines a theme toggle component, `ThemeToggler`: a
button that switches between a light and a dark theme and remembers the
choice in local storage; the header and layout do not render it. This
project models the two pieces of that code that hold logic:

- `content.dfy` (module `Content`) covers `site/lib/markdown.ts`. It models
  slug derivation, the existence guard and record assembly of
  `getMarkdownContent`, the enumeration in `getAllSlugs`, and the listing and
  in-place date sort of `getAllPostsMetadata`. The file system is a map from
  category to the directory listing. A category missing from the map is a
  missing directory. Each entry holds its file name, its front matter (as
  already parsed by gray-matter) and its body. The MDX serializer is a
  function passed in by the caller, and it may fail.
  `getMarkdownContent` returns its result together with the list of
  file-system and serializer calls it made. This is how the model states
  that a missing file fails before any read.
- `lex_order.dfy` (module `LexOrder`) covers JavaScript's `<` on two strings,
  which orders the posts by `date`. It proves that this is a strict total
  order.
- `theme.dfy` (module `Theme`) covers `site/app/components/ThemeToggler.tsx`.
  It models the lazy initial state, the toggle, the `useEffect` that syncs
  the root `dark` class and `localStorage`, and the label and icon choice.
  The class `ThemeToggler` holds the React state `theme`, the root element's
  class set and the storage map. Its methods update them in place.

## Behaviour worth knowing

- `getMarkdownContent` takes a full file name such as `home.md`. The slug
  pages append `.md` themselves.
- The theme is any string, not only `light` or `dark`. A truthy stored value
  is adopted unchecked. Toggling from such a value gives `light`.
- The toggle renders its icon right away. There is no neutral placeholder
  before mount.
- Nothing checks that `title` is present or non-empty.
- `getAllSlugs` does not filter by extension. A name without `.md` is kept
  unchanged as its own slug.

## Model

| member | source | states |
|---|---|---|
| `LexOrder.Less` | site/lib/markdown.ts:121 | JavaScript `<` on two strings: a proper prefix comes before the longer string, and no string comes before one of its own prefixes |
| `LexOrder.LessIrreflexive` | site/lib/markdown.ts:121 | no date string is before itself |
| `LexOrder.LessAsymmetric` | site/lib/markdown.ts:121 | if `a < b` then not `b < a` |
| `LexOrder.LessTransitive` | site/lib/markdown.ts:121 | `a < b` and `b < c` give `a < c` |
| `LexOrder.LessTotal` | site/lib/markdown.ts:121 | two different strings are ordered one way or the other |
| `LexOrder.NotLessTransitive` | site/lib/markdown.ts:120-126 | `>=` on strings is transitive, so a descending order is a total preorder (what the insertion proof uses) |
| `Content.EndsWithMd` | site/lib/markdown.ts:48 | the regular expression `/\.md$/` matches exactly when the last three characters are a literal `.`, `m`, `d` |
| `Content.StripMd` | site/lib/markdown.ts:48 | a name ending in `.md` loses exactly that suffix (the slug plus `.md` gives back the name); any other name is unchanged |
| `Content.StripMdAppended` | site/lib/markdown.ts:86 | stripping inverts appending `.md` for every slug, including one that already ends in `.md` |
| `Content.StripMdOnce` | site/lib/markdown.ts:110 | `a.md.md` gives `a.md`, `a.md` gives `a`, `a.txt` stays `a.txt` |
| `Content.FileExists` | site/lib/markdown.ts:40 | `existsSync` of the joined path: false when the category directory is missing, otherwise true exactly when the listing holds that name |
| `Content.IndexOf` | site/lib/markdown.ts:38-40 | the path names the first listing entry with that file name |
| `Content.Lookup` | site/lib/markdown.ts:37-44 | an existing path is read from an entry of that category with that exact name |
| `Content.Assemble` | site/lib/markdown.ts:62-67 | the record's keys are `slug`, `source` and the front-matter keys; front-matter values win, including over `slug` and `source` |
| `Content.GetMarkdownContent` | site/lib/markdown.ts:36-68 | a missing file gives NotFound after the existence check only, with no read and no serialization; an existing file is read and then serialized; the result is Ok exactly when the file exists and serialization succeeds, and it is then the assembled record with the stripped file name as slug; a serializer failure propagates |
| `Content.SlugsOf` | site/lib/markdown.ts:84-90 | one `{slug}` per entry, in listing order, each the stripped name |
| `Content.GetAllSlugs` | site/lib/markdown.ts:74-91 | a missing directory gives `[]`; otherwise exactly one slug per entry, in listing order, with no filtering |
| `Content.EnumeratedSlugResolves` | site/lib/markdown.ts:82-90 | the pages request `<slug>.md` for each enumerated slug; a slug from a `.md` file names an existing file and, without a front-matter `slug` override, resolves to that slug when serialization succeeds; a slug from any other name gives NotFound unless `<name>.md` also exists; the `<slug>.md` requests are made at site/app/blog/[slug]/page.tsx:36 and site/app/pages/[slug]/page.tsx:29 |
| `Content.MetadataOf` | site/lib/markdown.ts:110-116 | a post's record has keys `slug` plus its front-matter keys; front matter overrides the derived slug |
| `Content.AllMetadata` | site/lib/markdown.ts:103-117 | one metadata record per directory entry, in listing order |
| `Content.DateBefore` | site/lib/markdown.ts:121 | `a.date < b.date`: false when either date is missing or not a string, and false for two equal dates |
| `Content.DistinctDatesPermutation` | site/lib/markdown.ts:120-126 | rearranging the records, as the sort does, keeps them all dated and keeps their dates pairwise distinct or not |
| `Content.StrictWhenDistinct` | site/lib/markdown.ts:120-126 | a descending list with pairwise distinct string dates is strictly descending |
| `Content.InsertStep` | site/lib/markdown.ts:120-126 | one insertion pass keeps the array a permutation and, when every record has a string date, extends the sorted prefix by one |
| `Content.SortByDateDesc` | site/lib/markdown.ts:120-126 | the in-place sort leaves a permutation of the array; when every record has a string date, no record's date is before a later one's |
| `Content.GetAllPostsMetadata` | site/lib/markdown.ts:96-129 | a missing posts directory gives `[]`; otherwise the result is a permutation of the per-file records, as many as there are files, descending by date when every post has a string date, and strictly descending when those dates are also pairwise distinct |
| `Theme.HasStoredTheme` | site/app/components/ThemeToggler.tsx:11 | the stored value is falsy exactly when the key is absent (`getItem` gives `null`) or the value is empty |
| `Theme.InitialTheme` | site/app/components/ThemeToggler.tsx:8-17 | no window gives `light`; a truthy stored value is adopted as is; otherwise `dark` if the system prefers dark, else `light`; the theme is never empty |
| `Theme.StoredThemeWins` | site/app/components/ThemeToggler.tsx:10-11 | a stored `light` or `dark` is the initial theme, whatever the system preference |
| `Theme.InitialThemeIsMode` | site/app/components/ThemeToggler.tsx:8-17 | unless storage holds some other truthy value, the initial theme is `light` or `dark` |
| `Theme.Toggled` | site/app/components/ThemeToggler.tsx:35 | the new theme is `light` or `dark`, it is `dark` exactly when the old one was `light`, and it always differs from the old one |
| `Theme.ToggleTwice` | site/app/components/ThemeToggler.tsx:34-36 | two toggles return `light` or `dark` to itself; from any other value they end on `dark` |
| `Theme.ApplyTheme` | site/app/components/ThemeToggler.tsx:20-26 | after the effect the root has the `dark` class exactly when the theme is `dark`; every other class is unchanged |
| `Theme.PersistTheme` | site/app/components/ThemeToggler.tsx:29 | after the effect `storage["theme"]` is the theme; every other key and value is unchanged |
| `Theme.EffectIdempotent` | site/app/components/ThemeToggler.tsx:19-31 | running the effect again with the same theme changes neither the classes nor the storage |
| `Theme.ReloadRestoresTheme` | site/app/components/ThemeToggler.tsx:10-29 | once the effect has stored a theme, the next initial state is that theme, whatever the system preference |
| `Theme.AriaLabel` | site/app/components/ThemeToggler.tsx:44 | the label offers "Claro" exactly when the theme is `dark`, and "Escuro" otherwise |
| `Theme.IconFor` | site/app/components/ThemeToggler.tsx:47-57 | the sun icon is shown exactly when the theme is `dark` |
| `Theme.ThemeToggler.constructor` | site/app/components/ThemeToggler.tsx:8-17 | the state starts as the initial theme; the class list and storage are not yet touched |
| `Theme.ThemeToggler.SyncEffect` | site/app/components/ThemeToggler.tsx:19-31 | the class set and storage become their synced forms, the theme is unchanged, the page is in sync afterwards, and an already synced page is left unchanged |
| `Theme.ThemeToggler.ToggleTheme` | site/app/components/ThemeToggler.tsx:34-36 | the state becomes the toggled theme |
| `Theme.ThemeToggler.Click` | site/app/components/ThemeToggler.tsx:42 | a click toggles the theme; the theme always changes, so the effect runs and the page is synced to the new theme |
| `Theme.MountAndClickTwice` | site/app/components/ThemeToggler.tsx:19-36 | mounting and clicking twice ends with the same theme, classes and storage as after mounting, on a first visit too; a stored `light` or `dark` is the theme after mounting and again after the two clicks, and storage ends as it was |

## Left out

- Real file-system calls (`existsSync`, `readFileSync`, `readdirSync`) are replaced by the directory map. Path construction with `path.join` and `process.cwd()` is not modelled either. A file name that `path.join` normalises (empty, `.`, `..`, or one containing `/`) would name another path, possibly the directory itself. The model looks the name up in the listing instead.
- Subdirectories in a category directory are not modelled. `readdirSync` lists them too. They produce slugs in `getAllSlugs`, but they make `getAllPostsMetadata` throw EISDIR when it reads them. `getMarkdownContent` on such a name also throws EISDIR, because `existsSync` is true for a directory.
- gray-matter is not modelled. Each entry carries its front matter already parsed, so a malformed front-matter block (a parse error) is not modelled.
- next-mdx-remote's `serialize` is an opaque function parameter. Its result is an uninterpreted `MdxSource`, and its failure is an error message.
- The `async`/`Promise` wrapping of `getMarkdownContent` and `getAllPostsMetadata` is modelled as synchronous.
- Content.DateBefore: only string dates are compared. A missing date compares false against everything, as `undefined` does in JavaScript. Non-string front-matter values (YAML dates parsed into `Date` objects, numbers) are not given JavaScript's conversion semantics. The model compares them as false.
- LexOrder.Less: compares Dafny characters (Unicode scalar values). JavaScript compares UTF-16 code units, and the two orders differ for characters outside the Basic Multilingual Plane.
- Content.SortByDateDesc: JavaScript leaves the sort algorithm to the engine. The model sorts by insertion with the same comparator. In this model, where only string dates are compared (see `Content.DateBefore`), the comparator is consistent exactly when every date is a string and the dates are pairwise distinct. For that case `Content.GetAllPostsMetadata` states strict descending order. In JavaScript, distinct `Date` or numeric dates (gray-matter turns an unquoted `date: 2024-01-15` into a `Date`) are also ordered consistently; the model does not cover that case. With equal dates the comparator returns -1 both ways, so the language leaves the order to the engine. The contract's descending order with ties is a property of the insertion model, and of insertion- or merge-based engines, not a promise of the language. With missing dates only the permutation is stated.
- The browser is reduced to values: `typeof window` is a boolean, `matchMedia` is a boolean preference, `document.documentElement.classList` is a set, and `localStorage` is a map of strings. React's render and effect scheduling is reduced to explicit calls: the constructor, `SyncEffect` after mount, and `Click` for a toggle followed by the effect.
- The button's CSS classes and SVG paths are markup and are not modelled.
- `site/app/page.tsx`, `site/app/layout.tsx`, `site/app/components/Header.tsx`, `site/app/components/MDXComponentRenderer.tsx` and `site/declarations.d.ts` are not part of this model. They are rendering glue, layout constants and type declarations.
