# Alpha Insurance page script, modelled in Dafny

The page script of the Alpha Insurance website (`script.js`) is almost all
DOM wiring, but a handful of pure decision rules sit inside its handlers.
This project models those rules as immutable data and pure functions and
proves what they promise:

- **Catalog** (`catalog.dfy`): `displayProducts` keeps the whole catalog for
  the filter `all` and otherwise exactly the products of the filter's
  category, in catalog order, and shows the "no products found" placeholder
  when nothing is left; `animateCategoryCards` keeps a category card at full
  size when the filter is `all` or names its category.
- **Contact form** (`contact_form.dfy`): `getFormData` trimming, the four
  ordered checks of `validateForm` (required fields, email pattern, phone
  pattern, consent) with the first failure deciding the message, the email
  check on blur, the phone field's input filter, `handleFormSubmit` up to
  the start of the simulated sending, and the product preselection of
  `prefillContactForm` and `InsuranceApp.showContactForm`.
- **FAQ** (`faq.dfy`): the accordion click as a transition on the set of
  open items.
- **Navigation** (`navigation.dfy`): the mobile menu toggle and link clicks,
  the navbar's `scrolled` state, and `highlightCurrentSection`.
- **Notifications** (`notification.dfy`): the icon and the border colour
  chosen for a notification type.
- **Page** (`page.dfy`): the filter buttons, the category cards and the
  quote buttons that connect the catalog to the contact form.
- Shared pieces: `seqs.dfy` (order-preserving filtering, used for both the
  catalog filter and the phone filter) and `js.dfy` (the regular-expression
  classes `\d` and `\s`, `String.prototype.trim`, string truthiness and
  omitted arguments).

Categories and filter values are plain strings, because the script compares
them with `===` and never checks them against a fixed list: a filter value
no product carries simply yields the placeholder. `\d` is the ASCII digits;
`\s` is the ECMAScript WhiteSpace and LineTerminator set, which is also what
`trim` strips.

The site's design description (a prose account of the page's behaviour,
not shipped with the repository) differs from the script in four places;
the model follows the script:

- The design description has the *first* section covering the scroll
  position highlighted; the script visits every section and each covering
  one resets the links, so the *last* covering section wins
  (`script.js:484-498`). `Navigation.Highlight` models the last one.
- The design description has a quote request take the product's own
  category first and the name table only as a fallback; the script consults
  the name table first and the category only when the name is not in it
  (`script.js:437-441`).
- The design description has a request for a product outside the name
  table and without a category end in an undefined selection. In the
  script that depends on how the category arrives (`script.js:437-441`):
  an omitted or empty category is falsy and leaves the selector as it was,
  which is what `InsuranceApp.showContactForm` does (`script.js:729-732`);
  a quote button renders its product's category into `data-category`
  (`script.js:144`), so a record with no `category` field yields the text
  `undefined`, which is truthy and is assigned to the selector, where the
  browser finds no such option and clears the selection.
  `ContactForm.Prefill` and `ContactForm.ShowContactForm` model the falsy
  case; the `undefined` text is not representable in the model (see
  `QuoteRequested` under "Left out").
- The design description speaks of a phone "shorter than 8 meaningful
  characters"; the pattern counts every character, spaces and brackets
  included (`script.js:372`), so `"1 2 3 4 5"` passes.

## Model

| member | source | states |
|---|---|---|
| Seqs.Filter | script.js:111-113 | the filtered sequence keeps only elements passing the test, each exactly as often as the input holds it, as a subsequence of the input |
| Seqs.FilterUnique | script.js:111-113 | any subsequence holding exactly the passing elements with their multiplicities is the filter's result, so the filter's contract determines it |
| Seqs.FilterIdempotent | script.js:404 | filtering a second time with the same test changes nothing |
| Seqs.FilterEmpty | script.js:116 | the filter's result is empty exactly when no element passes |
| Js.LeadingSpace | script.js:341-345 | the length of the whitespace run at the front: everything before it is whitespace and the character after it is not |
| Js.TrailingSpace | script.js:341-345 | the length of the whitespace run at the back: everything after it is whitespace and the character before it is not |
| Js.Trim | script.js:341-345 | the result is the input with whitespace runs removed only at the two ends, and is empty exactly when the input is all whitespace |
| Js.TrimUnique | script.js:341-345 | the only string that is the input with its end runs of whitespace removed, and none left at its ends, is the trimmed string, so `trim`'s contract determines its result |
| Js.TrimIdempotent | script.js:341-345 | trimming a trimmed string changes nothing |
| Catalog.Shown | script.js:111-113 | for `all` the catalog itself; otherwise only products of the filter's category, each as often as in the catalog, in catalog order |
| Catalog.Display | script.js:107-151 | the placeholder exactly when no product passes the filter; otherwise a non-empty run of cards that holds exactly the passing products in catalog order, and the whole catalog for `all` |
| Catalog.DisplayUnique | script.js:111-151 | any ordered selection of exactly the passing products is the run of cards shown |
| Catalog.DisplayStable | script.js:111-113 | displaying the shown cards again under the same filter shows the same cards |
| Catalog.UnknownCategoryShowsPlaceholder | script.js:116-125 | a filter naming no product's category shows the placeholder |
| Catalog.Emphasised | script.js:214 | a category card is at full size exactly when every product of its category passes the filter |
| Catalog.EmphasisMatchesDisplay | script.js:208-222 | for a category the catalog has products of, its card is at full size exactly when all of that category's products are on display |
| ContactForm.Collect | script.js:339-349 | each of the name, email, phone and message fields is the control's text with the whitespace at its two ends, and only there, removed, and is empty exactly when the control held only whitespace; product choice and consent pass through |
| ContactForm.CollectUnique | script.js:339-349 | any record holding the trimmed text of each control and the product choice and consent unchanged is the collected record, so the contract determines it |
| ContactForm.CollectIdempotent | script.js:341-345 | collecting again from controls holding the collected values yields the same record |
| ContactForm.EmailPatternIsWellFormed | script.js:365 | the email pattern matches exactly the strings with no whitespace, exactly one `@` with something before it, and a `.` after the `@` that is neither first nor last of the domain |
| ContactForm.MatchesEmailPattern | script.js:365 | the pattern read literally: an `@` and a later `.` split the address into three non-empty runs of characters that are neither whitespace nor `@` |
| ContactForm.TestEmail | script.js:365-366 | a single pass over the address answers exactly as the email pattern does |
| ContactForm.SanitizePhone | script.js:404 | the phone filter keeps only digits and `+`, keeps every one of them, and keeps their order |
| ContactForm.SanitizePhoneIdempotent | script.js:404 | running the phone filter on its own output changes nothing |
| ContactForm.SanitizePhoneFixes | script.js:404 | text of only digits and `+` passes the phone filter unchanged |
| ContactForm.MatchesPhonePattern | script.js:372 | the phone pattern: at least 8 characters, each a digit, whitespace, `-`, `+`, `(` or `)` |
| ContactForm.SanitizedPhoneCheck | script.js:372 | after the phone filter, the submit check accepts the phone exactly when it is empty or has at least 8 characters |
| ContactForm.Validate | script.js:351-384 | valid exactly when no check fails; otherwise it names a failing check such that every earlier check in the order required, email, phone, consent passes |
| ContactForm.ValidIff | script.js:358-383 | accepted exactly when name and email are non-empty, the email is well formed, the phone is empty or matches the phone pattern, and consent is given |
| ContactForm.BlankNameRefused | script.js:359-361 | a name field of only whitespace is refused as a missing required field |
| ContactForm.SampleAccepted | script.js:359-383 | Maria, `maria@example.com`, `+30 6912345678`, consent given, is accepted |
| ContactForm.DotlessEmailRefused | script.js:365-368 | `foo@bar` is refused on the email check |
| ContactForm.Message | script.js:359-381 | the Greek message shown for each failed check, one per check in the validator's order |
| ContactForm.Submit | script.js:301-316 | a submit goes to sending only with the collected record when every check passes, and is otherwise refused with the first failing check's message |
| ContactForm.EmailBlurBorder | script.js:391-397 | on blur the email field is marked exactly when its trimmed value is non-empty and not well formed |
| ContactForm.BlurAgreesWithSubmit | script.js:393 | with a name filled in, the blur mark and a submit refused on the email check coincide |
| ContactForm.TableValuesAreCategories | script.js:428-435 | every entry of the product-name table is a non-empty category key, so a table lookup is truthy exactly for names in the table |
| ContactForm.Prefill | script.js:437-441 | a name in the table selects the table's category whatever the argument; else a truthy category argument is selected; else the selection is unchanged |
| ContactForm.PrefillPrecedence | script.js:437-441 | for a name in the table the result depends neither on the previous selection nor on the argument; the result is always the previous selection, a category key or the argument |
| ContactForm.PrefillIdempotent | script.js:437-441 | repeating a quote request leaves the selection as the first request did |
| ContactForm.ShowContactForm | script.js:729-732 | with the category omitted, a name in the table selects its category and any other name leaves the selection unchanged |
| Faq.Click | script.js:271-284 | after a click at most one item is open, it can only be the clicked one, and the clicked one is open exactly when it was closed before |
| Faq.ClickOpenClosesAll | script.js:273-283 | clicking the open item closes every item |
| Faq.ClickClosedOpensOnlyIt | script.js:273-283 | clicking a closed item leaves it as the only open item |
| Faq.RunOpensOnlyLastClicked | script.js:271-284 | after any non-empty sequence of clicks at most one item is open, and only the last clicked one can be |
| Faq.RunStaysWithin | script.js:276-283 | clicks on the page's items only ever open the page's items |
| Faq.RepeatedClicks | script.js:281-283 | clicking one question n times from all closed leaves it open exactly when n is odd |
| Navigation.Toggle | script.js:31-39 | the toggle flips the menu and both icon classes, locks the body exactly when the menu is now open, and preserves the icon/lock agreement |
| Navigation.LinkClicked | script.js:43-49 | a link click closes the menu, shows the bars icon and unlocks the body from any state |
| Navigation.MenuStaysConsistent | script.js:31-49 | from a consistent menu, any sequence of toggle and link clicks keeps icon and body lock in step with the menu |
| Navigation.ToggleTwice | script.js:31-39 | two toggle clicks restore the menu |
| Navigation.NavbarScrolled | script.js:54-58 | the navbar has the `scrolled` class exactly when the scroll position is past 50 pixels |
| Navigation.NavbarFollowsLastPosition | script.js:53-59 | after any non-empty run of scroll events the navbar is scrolled exactly when the last position is past 50 pixels, whatever happened before; with no event it is unchanged |
| Navigation.LastCovering | script.js:482-489 | the last section covering scroll position plus 100, or -1 when none covers it |
| Navigation.Highlight | script.js:480-499 | with no covering section the links are untouched; otherwise the active links are exactly those targeting the last covering section |
| Navigation.HighlightIdempotent | script.js:480-499 | running the highlight again at the same scroll position changes nothing, so the handler's three registrations act as one |
| Navigation.HighlightExactlyOne | script.js:491-496 | with distinct link targets and a link for the deciding section, exactly that link is active |
| Notification.PaletteDistinct | script.js:663-668 | the four known notification types have four different colours |
| Notification.BorderColor | script.js:662-670 | a known type gets its table colour; the info colour is chosen exactly for `info` and for unknown types |
| Notification.IconName | script.js:588-591 | `check-circle` for `success`, `exclamation-circle` for `error`, `exclamation-triangle` for `warning`, `info-circle` for any other type |
| Notification.IconAgreesWithColor | script.js:588-591 | a notification gets the info icon exactly when it gets the info colour, and the known types get distinct icons |
| Page.FilterClicked | script.js:161-176 | a filter click displays the catalog under the filter: the placeholder exactly when nothing passes, otherwise every passing product as often as the catalog holds it, in catalog order, and nothing else; each category card is at full size exactly when every product of its category passes |
| Page.CategoryCardClicked | script.js:187-203 | a category card click acts as the filter button of its category when one exists and changes nothing otherwise |
| Page.CategoryCardFocuses | script.js:187-222 | after a category card's click, that card and only cards of its category are at full size, only its category's products are shown, and every product of its category is shown |
| Page.QuoteRequested | script.js:142-144 | a quote button hands the product's name and category to the prefill: the table's category when the name is in it, else the product's category when non-empty, else no change |
| Page.QuoteFromFilteredView | script.js:226-231 | a quote from a card shown under a category filter selects that category unless the name table assigns another |
| Page.QuoteSelectsOwnCategory | script.js:226-231 | when the record agrees with the name table, a quote request selects the product's own category |

## Left out

- Loading the catalog (`fetchProducts`, `products.json`), the loading and
  load-error views: network I/O and promise plumbing. The catalog is a
  parameter.
- The simulated sending after a valid submit (button text, disabling,
  the two-second delay, form reset, success message and notification), the
  auto-hide of success messages, the delayed focus of the name field and the
  toast removal timers: timer and event-loop behaviour.
- `throttle` and `debounce`: timer-driven rate limiting.
- Entrance animations (`IntersectionObserver`), injected CSS, inline styles
  and the floating images: browser APIs and cosmetics.
- Smooth scrolling, `scrollIntoView`, `history.pushState`, the global error
  handler and `InsuranceApp.refreshProducts`: browser side effects.
- The HTML of cards, messages and notifications and the `innerHTML`
  assignments: a card is modelled as the product record it shows.
- The submission timestamp of `getFormData`: a clock reading.
- What the browser does with a selector value that matches no option (it
  clears the selection); the model keeps the assigned string.
- JavaScript strings are sequences of UTF-16 code units and may hold lone
  surrogates; Dafny characters are Unicode scalar values, so a lone
  surrogate cannot be represented. Without the `u` flag, `[^\s@]` matches
  each half of a surrogate pair, so the email pattern accepts a character
  outside the Basic Multilingual Plane as two code units where the model
  sees one character; the pattern has no length bound, so the verdict is
  the same. The phone pattern's characters and the characters `trim`
  removes are all single code units, so the phone's 8-character bound
  counts the same in both, and only the lengths of other strings differ.
- Prefill: the name table is looked up as an own-key map; names inherited
  from `Object.prototype` (such as `constructor`) make the script's lookup
  truthy and are not modelled.
- BorderColor: the colour table is looked up as an own-key map; inherited
  property names are not modelled.
- Highlight: `window.scrollY` can be fractional; positions are modelled as
  integers.
- NavbarScrolled: `window.scrollY` can be fractional; positions are
  modelled as integers, so a position strictly between 50 and 51 is not
  representable.
- The `active` class of the filter buttons (`script.js:163-166`) and the URL
  hash update of a filter click: button styling and browser history.
- QuoteRequested: product records always carry a string category, so a
  record without a `category` field, whose quote button carries the text
  `undefined`, is not represented.
