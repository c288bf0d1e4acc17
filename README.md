# Client-side page script: a Dafny model

This project models the decision rules of the client-side page script of a
static web site (`js/main.js`). The script reacts to browser events. The model
covers these rules:

- **Theme.** Choosing the initial light/dark theme (stored preference, then
  the system's dark hint, then nothing). Flipping it with the toggle control.
  Persisting it. Keeping the sun/moon icon in step with it.
- **Active navigation.** Taking the current page from the last path segment.
  Marking with `active` every navigation link whose `href`'s last segment
  equals the current page, up to the first link without `href`.
- **Contact form.** Validating the trimmed `nombre`, `email` and `mensaje`
  fields in order: missing fields first, then the shape of the address
  against `^[^\s@]+@[^\s@]+\.[^\s@]+$`. Each submit shows exactly one
  notification. The form is reset only on success.
- **Entry animation.** Hiding and observing every matched element. Revealing
  and unobserving an element only when the observer reports it as
  intersecting. So each element goes pending → revealed at most once.
- **Notifications.** Appending one notification element to the end of the
  body. Removing every notification when Escape is pressed. The removal timer
  later removes a single notification, and does nothing if it is already gone.

Layout:

- `text.dfy`: `trim`, with the ECMAScript whitespace set written out, and
  `split('/').pop()`.
- `email.dfy`: the e-mail pattern as a language, plus a plain-words rule
  proved equivalent to it.
- `theme.dfy`: the theme flip and the icon classes.
- `nav.dfy`: the current page and the link-marking pass.
- `form.dfy`: the ordered validation decision.
- `notify.dfy`: notification elements and body removal.
- `reveal.dfy`: styles, observer entries and phases.
- `page.dfy`: `class Page`. It holds the page's mutable state: the
  `data-theme` attribute, the stored theme slot, the icon's classes, the
  link array, the styles and the observed set, the form fields, and the
  body's children. Each handler of the script is one of its methods.

Browser inputs are plain values:

- The system dark-mode hint is the parameter `prefersDark`.
- The location's path is the parameter `pathname`.
- The observer's batch of entries is the parameter `entries`.
- The pressed key is the parameter `key`.
- Local storage's `theme` slot is the field `storedTheme`. Initialisation
  reads it and the toggle writes it.

The `data-theme` value is not limited to `light` and `dark`:

- A non-empty stored value is applied as it is.
- With no stored value and no dark hint, the attribute is left as it was
  and the icon is untouched.
- The toggle maps `dark` to `light` and every other value, an unset
  attribute included, to `dark`.

## Model

| member | source | states |
|---|---|---|
| `Text.TrimFrames` | js/main.js:182-184 | the trimmed field sits inside the raw value between a whitespace-only prefix and a whitespace-only suffix, and neither starts nor ends with whitespace |
| `Text.Trim` | js/main.js:182-184 | the trimmed value is never longer than the raw one, and it is empty exactly when the raw value is all whitespace |
| `Text.TrimIdempotent` | js/main.js:182-184 | trimming a trimmed value changes nothing |
| `Text.TrimStartSpec` | js/main.js:182-184 | leading trim drops exactly a whitespace-only prefix and stops at the first other character |
| `Text.TrimEndSpec` | js/main.js:182-184 | trailing trim drops exactly a whitespace-only suffix and stops at the last other character |
| `Text.Split` | js/main.js:121 | `split('/')` always yields at least one piece, so `pop()` always has one to return |
| `Text.SplitPieces` | js/main.js:121 | no piece of the split holds the separator, and there is one more piece than there are separators |
| `Text.LastSegmentSpec` | js/main.js:115 | the segment taken from a path holds no `/` and is the whole path or the part after its last `/` |
| `Text.LastSegmentIsLastPiece` | js/main.js:121 | that segment is the last piece of `split('/')`, the one `pop()` returns |
| `Email.EmailAcceptedIffPattern` | js/main.js:193-194 | a string matches the e-mail pattern iff it has no whitespace, exactly one `@`, a non-empty part before it, and a part after it with a `.` that is neither its first nor its last character |
| `Email.PatternIsAccepted` | js/main.js:193-194 | every string the pattern matches satisfies the plain-words rule |
| `Email.AcceptedMatchesPattern` | js/main.js:193-194 | every string satisfying the plain-words rule is matched by the pattern |
| `Email.NoAtRejected` | js/main.js:193-194 | an address without `@` fails the pattern |
| `Email.ShortAddressAccepted` | js/main.js:193-194 | `a@b.com` passes the pattern |
| `Theme.Flip` | js/main.js:40 | the toggle's next theme is always `dark` or `light`, and it is `light` exactly when the current attribute is `dark` (unset or unexpected values lead to `dark`) |
| `Theme.IconClasses` | js/main.js:65-74 | for `dark` the icon has `fa-sun` and not `fa-moon`; for any other theme `fa-moon` and not `fa-sun`; every other class is kept |
| `Theme.IconAfterIdempotent` | js/main.js:65-74 | updating the icon twice for the same theme equals updating it once; a missing icon stays missing |
| `Theme.TogglesAlternate` | js/main.js:39-46 | from `dark` or `light`, an even number of toggles returns to the start and an odd number gives the other theme |
| `Theme.TogglesAlternateFromAny` | js/main.js:39-46 | from any attribute, the first toggle lands on `dark` or `light` and the value alternates after that |
| `Nav.CurrentPage` | js/main.js:115 | the current page is never empty and holds no `/`; it is `index.html` when the path is empty or ends in `/`, and the text after the last `/` otherwise |
| `Nav.FirstMissingHref` | js/main.js:119-121 | the pass reaches exactly the links before the first link without `href`, where reading its segment throws |
| `Nav.WithActive` | js/main.js:124-129 | after the remove-then-maybe-add step the class list has `active` exactly when the segments matched, and its other classes are unchanged |
| `Nav.Mark` | js/main.js:118-129 | one link after its step: same `href`, `active` iff its last segment equals the current page, other classes kept |
| `Nav.MarkLinks` | js/main.js:117-130 | the pass keeps the number of links and every `href` |
| `Nav.MarkLinksActiveIff` | js/main.js:117-130 | after the pass, each reached link carries `active` iff the last segment of its `href` equals the current page (every match, duplicates included); its other classes and every `href` are unchanged; the first link without `href` and every link after it keep their classes |
| `Nav.MarkLinksIdempotent` | js/main.js:114-130 | running the pass twice for the same page gives the same marking as running it once |
| `Form.Validate` | js/main.js:182-201 | missing-fields error iff some trimmed field is missing or empty; otherwise invalid-email error iff the trimmed e-mail fails the plain-words rule; otherwise sent |
| `Form.Filled` | js/main.js:182-187 | a field passes the presence test exactly when its element exists and its value holds a character that is not whitespace |
| `Form.Message` | js/main.js:188-200 | each outcome has its own notification text: missing fields, invalid e-mail, sent |
| `Form.NotificationType` | js/main.js:188-200 | the notification type is `success` exactly for a sent message, `error` otherwise |
| `Notify.NoticeClass` | js/main.js:214 | the class attribute is `notification notification-` followed by the type, so the type can be read back from it |
| `Notify.NoticeClassInjective` | js/main.js:214 | different notification types never share a class attribute |
| `Notify.NewNotice` | js/main.js:211-216 | the new notification carries its identity, its message, the type's class attribute and the check icon exactly for `success` |
| `Notify.NoticeIcon` | js/main.js:216 | a notification's icon is `fa-check-circle` iff its type is `success`, `fa-exclamation-circle` otherwise |
| `Notify.WithoutNotices` | js/main.js:359-364 | after Escape no notification is left in the body and every content child is still there |
| `Notify.WithoutNoticesAppend` | js/main.js:362-363 | removing all notifications keeps the other children in their order |
| `Notify.WithoutNoticesIdle` | js/main.js:359-364 | Escape on a body without notifications changes nothing |
| `Notify.RemoveNotice` | js/main.js:245-247 | removing one notification leaves no child with its identity and keeps every other child |
| `Notify.RemoveNoticeAppend` | js/main.js:245-247 | removing one notification keeps the other children in their order |
| `Notify.RemoveOneNotice` | js/main.js:245-247 | when the body holds that notification once, at position k, removal takes out exactly that child |
| `Notify.RemoveKeepsUnique` | js/main.js:240-247 | on a body whose notifications have distinct identities below the next one, removal takes out exactly the one child with that identity, or nothing if it is gone, and keeps identities distinct |
| `Notify.RemoveAbsentNotice` | js/main.js:245-247 | removing a notification that is no longer in the body changes nothing |
| `Notify.DismissAfterEscape` | js/main.js:243-248 | after Escape, a notification's late timer removal leaves the body as it is |
| `Theme.IconAfter` | js/main.js:65-74 | a missing icon stays missing; a present one has the sun exactly for `dark`, the moon exactly otherwise, and its other classes unchanged |
| `Reveal.Hide` | js/main.js:160-162 | a matched element becomes transparent, 20px lower, with the 0.6s transition; watched it is pending, unwatched it is not revealed |
| `Reveal.Show` | js/main.js:150-151 | an intersecting element becomes opaque and in place, keeps its transition, and once unwatched it counts as revealed |
| `Reveal.PhaseOf` | js/main.js:147-163 | an element is pending exactly while watched, and revealed exactly when unwatched, opaque and in place |
| `Page.Cleared` | js/main.js:201 | after `form.reset()` a present field is empty and fails the presence test; a missing one stays missing |
| `Page.Page.InitTheme` | js/main.js:17-34 | a non-empty stored theme is applied as it is; otherwise `dark` if the system prefers it; otherwise attribute and icon are unchanged; the icon follows the applied theme |
| `Page.Page.UpdateThemeIcon` | js/main.js:65-74 | the icon's classes become those of `IconClasses`; a missing icon is untouched |
| `Page.Page.ToggleTheme` | js/main.js:38-50 | the attribute and the stored slot both get the flipped theme, and the icon follows it |
| `Page.Page.SetActiveNav` | js/main.js:114-131 | the links become the marked links for the current page; `completed` is false exactly when some link has no `href` |
| `Page.Page.InitAnimations` | js/main.js:157-164 | every matched element is hidden and observed (pending); no other element changes |
| `Page.Page.OnIntersection` | js/main.js:147-155 | intersecting targets are shown and unobserved (revealed); all other elements keep their style and watch, so a revealed element is never changed again |
| `Page.Page.ShowNotification` | js/main.js:211-240 | exactly one notification, with class `notification notification-<type>` and the type's icon, is appended to the end of the body; its identity is new, and identities stay distinct |
| `Page.Page.SubmitForm` | js/main.js:178-202 | the outcome is `Validate` of the fields; exactly one notification for it is appended, with a new identity; the fields are reset exactly when the message is sent |
| `Page.Page.OnKeyDown` | js/main.js:359-365 | Escape removes every notification from the body; any other key changes nothing |
| `Page.Page.RemoveNotification` | js/main.js:243-248 | the delayed removal takes out exactly the one child that is that notification, keeping the others in order, or changes nothing if it is gone; identities stay distinct |

## Left out

- Event wiring is not modelled. This covers `addEventListener`, the
  `DOMContentLoaded` start-up order and the `keydown` registration
  (js/main.js:337-365). Each handler is a method that is called directly.
  One consequence is not captured: a link without `href` throws inside
  `setActiveNav` and aborts the initialisations that follow it. The model
  only reports this through `SetActiveNav`'s `completed`.
- Timers and their delays are not modelled:
  - the toggle control's 300 ms rotate-and-scale feedback;
  - the notification's 3000 ms display and 300 ms exit animation;
  - the 100 ms delayed start of the entry animation.

  The final `remove()` of a notification is modelled as `RemoveNotification`,
  with no timing.
- The scroll-to-top button (js/main.js:84-105) is not modelled. Its rule
  depends on the floating-point `pageYOffset` and on the browser's smooth
  scroll.
- The ripple effect (js/main.js:284-316) is not modelled. It is
  floating-point click geometry and CSS only.
- Inline CSS, `innerHTML` markup, the injected `@keyframes` rules
  (js/main.js:252-275, 319-328) and `console.log` are not modelled. This
  includes the notification's type-dependent background colour. A message is
  kept as plain text, not parsed as HTML.
- Browser stores and geometry are not modelled:
  - `localStorage` is a single field, and storage that throws is not
    modelled;
  - `matchMedia` and `location.pathname` are parameters;
  - the observer's threshold (0.1) and root margin (-50px) are computed by
    the browser, so the batch of entries is an input.
- Page.Page.OnIntersection: requires every reported entry to be for an
  element the observer is watching. The browser guarantees this.
- Page.Page.SubmitForm: `form.reset()` restores each field's default value.
  The model assumes every default is empty.
- Notify.WithoutNotices: `.notification` is matched anywhere in the
  document. The model looks only at the body's children, and only at the
  notifications that `showNotification` created.
- Theme.IconClasses: a class list is modelled as a set of class names, so
  the order of tokens is not modelled.
- Text.IsSpace: the whitespace set is the ECMAScript WhiteSpace and
  LineTerminator code points, written out for a fixed Unicode version.
