/**
 * The page the script runs on, as one object: the `data-theme` attribute,
 * the persisted theme slot, the theme icon's classes, the navigation links,
 * the animated elements' styles and the observer's set, the contact form's
 * fields and the children of the body. Each handler of the script is a
 * method, invoked directly; browser inputs are parameters.
 */
module Page {
  import opened Optional
  import opened Text
  import opened Theme
  import opened Nav
  import opened Reveal
  import opened Form
  import opened Notify

  /** A form field after `form.reset()`: emptied when its element exists. */
  function Cleared(field: Option<string>): (r: Option<string>)
    ensures r.Some? <==> field.Some?
    ensures r.Some? ==> r.value == [] && !Filled(r)
  {
    if field.Some? then Some("") else None
  }

  class Page {
    /** The `data-theme` attribute of the document element; `None` while unset. */
    var theme: Option<string>
    /** The persisted `theme` slot of local storage; `None` when nothing is stored. */
    var storedTheme: Option<string>
    /** The classes of the theme icon; `None` when the page has no icon element. */
    var icon: Option<set<string>>

    /** The navigation links, in document order. */
    const links: array<Link>

    /** Inline styles of the elements the animation has touched. */
    var styles: map<Element, Style>
    /** The elements the visibility observer is watching. */
    var observed: set<Element>

    /** The values of the `nombre`, `email` and `mensaje` fields; `None` for a missing element. */
    var nombre: Option<string>
    var email: Option<string>
    var mensaje: Option<string>

    /** The children of the document body, in order, and the next notification identity. */
    var body: seq<Child>
    var nextNotice: nat

    /**
     * Every notification in the body is one that `ShowNotification` created:
     * its identity is below the next one to hand out, and no two
     * notifications share an identity.
     */
    predicate Valid()
      reads this
    {
      UniqueNotices(body, nextNotice)
    }

    /** The page as loaded: its markup holds no notification yet. */
    constructor (theme: Option<string>, storedTheme: Option<string>, icon: Option<set<string>>,
                 links: array<Link>,
                 nombre: Option<string>, email: Option<string>, mensaje: Option<string>,
                 body: seq<Child>)
      requires forall k :: 0 <= k < |body| ==> body[k].Content?
      ensures this.theme == theme && this.storedTheme == storedTheme && this.icon == icon
      ensures this.links == links
      ensures this.styles == map[] && this.observed == {}
      ensures this.nombre == nombre && this.email == email && this.mensaje == mensaje
      ensures this.body == body && this.nextNotice == 0
      ensures Valid()
    {
      this.theme := theme;
      this.storedTheme := storedTheme;
      this.icon := icon;
      this.links := links;
      this.styles := map[];
      this.observed := {};
      this.nombre, this.email, this.mensaje := nombre, email, mensaje;
      this.body := body;
      this.nextNotice := 0;
    }

    // ------------------------------------------------------------------
    // Theme
    // ------------------------------------------------------------------

    /**
     * The initial theme. A non-empty stored value is applied as it is;
     * otherwise `dark` is applied when the system prefers it; otherwise the
     * attribute and the icon are left alone. The stored slot is only read.
     */
    method InitTheme(prefersDark: bool)
      modifies this`theme, this`icon
      ensures storedTheme.Some? && storedTheme.value != [] ==>
        theme == storedTheme && icon == IconAfter(old(icon), storedTheme.value)
      ensures !(storedTheme.Some? && storedTheme.value != []) && prefersDark ==>
        theme == Some(Dark) && icon == IconAfter(old(icon), Dark)
      ensures !(storedTheme.Some? && storedTheme.value != []) && !prefersDark ==>
        theme == old(theme) && icon == old(icon)
    {
      var saved := storedTheme;
      if saved.Some? && saved.value != "" {
        theme := saved;
        UpdateThemeIcon(saved.value);
      } else if prefersDark {
        theme := Some(Dark);
        UpdateThemeIcon(Dark);
      }
    }

    /** Sets the icon for `t`: the sun for `dark`, the moon otherwise; other classes stay. */
    method UpdateThemeIcon(t: string)
      modifies this`icon
      ensures icon == IconAfter(old(icon), t)
    {
      if icon.Some? {
        var classes := icon.value;
        if t == Dark {
          classes := classes - {Moon};
          classes := classes + {Sun};
        } else {
          classes := classes - {Sun};
          classes := classes + {Moon};
        }
        icon := Some(classes);
      }
    }

    /**
     * A press of the toggle control: the flipped theme is written to the
     * attribute and to the stored slot alike, and the icon follows it.
     */
    method ToggleTheme()
      modifies this`theme, this`storedTheme, this`icon
      ensures theme == Some(Flip(old(theme))) && storedTheme == theme
      ensures icon == IconAfter(old(icon), Flip(old(theme)))
    {
      var current := theme;
      var next := if current == Some(Dark) then Light else Dark;
      theme := Some(next);
      storedTheme := Some(next);
      UpdateThemeIcon(next);
    }

    // ------------------------------------------------------------------
    // Active navigation
    // ------------------------------------------------------------------

    /**
     * The marking pass for the location `pathname`. Each link in turn loses
     * `active` and gets it back when the last segment of its `href` is the
     * current page. A link without `href` makes reading its segment throw:
     * the pass stops there (`completed` is false) and later links keep
     * their classes.
     */
    method SetActiveNav(pathname: string) returns (completed: bool)
      modifies links
      ensures links[..] == MarkLinks(old(links[..]), CurrentPage(pathname))
      ensures completed <==> FirstMissingHref(old(links[..])) == links.Length
    {
      var page := CurrentPage(pathname);
      ghost var before := links[..];
      ghost var marked := MarkLinks(before, page);
      ghost var stop := FirstMissingHref(before);
      var i := 0;
      while i < links.Length
        invariant 0 <= i <= links.Length && i <= stop
        invariant forall k :: 0 <= k < i ==> links[k] == marked[k]
        invariant forall k :: i <= k < links.Length ==> links[k] == before[k]
      {
        var link := links[i];
        if link.href.None? {
          assert i == stop;
          assert links[..] == marked;
          return false;
        }
        var linkPage := LastSegment(link.href.value);
        var classes := link.classes - {Active};
        if linkPage == page {
          classes := classes + {Active};
        }
        assert link.(classes := classes) == marked[i] by {
          assert i < stop;
          assert marked[i] == Mark(before[i], page);
        }
        links[i] := link.(classes := classes);
        i := i + 1;
      }
      assert links[..] == marked;
      return true;
    }

    // ------------------------------------------------------------------
    // Entry animation
    // ------------------------------------------------------------------

    /** The inline style of `e`: what the animation wrote, or none at all. */
    function StyleOf(e: Element): Style
      reads this
    {
      if e in styles then styles[e] else Unstyled
    }

    /** Where `e` stands in the one-shot animation. */
    function PhaseAt(e: Element): Phase
      reads this
    {
      PhaseOf(StyleOf(e), e in observed)
    }

    /** Every matched element is hidden and observed; no other element changes. */
    method InitAnimations(matched: seq<Element>)
      modifies this`styles, this`observed
      ensures observed == old(observed) + (set k | 0 <= k < |matched| :: matched[k])
      ensures forall e :: StyleOf(e) == if e in matched then Hide(old(StyleOf(e))) else old(StyleOf(e))
      ensures forall e :: e in matched ==> PhaseAt(e) == Pending
    {
      var i := 0;
      while i < |matched|
        invariant 0 <= i <= |matched|
        invariant observed == old(observed) + (set k | 0 <= k < i :: matched[k])
        invariant forall e :: StyleOf(e) == if e in matched[..i] then Hide(old(StyleOf(e))) else old(StyleOf(e))
      {
        var el := matched[i];
        styles := styles[el := Hide(StyleOf(el))];
        observed := observed + {el};
        assert matched[..i + 1] == matched[..i] + [el];
        assert (set k | 0 <= k < i + 1 :: matched[k]) == (set k | 0 <= k < i :: matched[k]) + {el};
        i := i + 1;
      }
      assert matched[..i] == matched;
    }

    /**
     * The observer callback for one batch of entries, all of them for
     * watched elements. Each intersecting element is shown and no longer
     * watched; every other element keeps its style and its watch. So a
     * pending element that intersects becomes revealed, and a revealed
     * element, no longer watched, is never reported or changed again.
     */
    method OnIntersection(entries: seq<Entry>)
      requires forall k :: 0 <= k < |entries| ==> entries[k].target in observed
      modifies this`styles, this`observed
      ensures observed == old(observed) - IntersectingTargets(entries)
      ensures forall e :: StyleOf(e) == if e in IntersectingTargets(entries) then Show(old(StyleOf(e))) else old(StyleOf(e))
      ensures forall e :: e in IntersectingTargets(entries) ==> PhaseAt(e) == Revealed
      ensures forall e :: old(PhaseAt(e)) != Pending ==> StyleOf(e) == old(StyleOf(e)) && PhaseAt(e) == old(PhaseAt(e))
    {
      var i := 0;
      while i < |entries|
        invariant 0 <= i <= |entries|
        invariant observed == old(observed) - IntersectingTargets(entries[..i])
        invariant forall e :: StyleOf(e) == if e in IntersectingTargets(entries[..i]) then Show(old(StyleOf(e))) else old(StyleOf(e))
      {
        var entry := entries[i];
        if entry.isIntersecting {
          styles := styles[entry.target := Show(StyleOf(entry.target))];
          observed := observed - {entry.target};
        }
        assert entries[..i + 1] == entries[..i] + [entry];
        IntersectingTargetsSnoc(entries[..i], entry);
        i := i + 1;
      }
      assert entries[..i] == entries;
    }

    // ------------------------------------------------------------------
    // Contact form and notifications
    // ------------------------------------------------------------------

    /** Appends one notification of `kind` to the end of the body and returns its identity. */
    method ShowNotification(message: string, kind: string) returns (id: nat)
      requires Valid()
      modifies this`body, this`nextNotice
      ensures id == old(nextNotice) && nextNotice == id + 1
      ensures body == old(body) + [NewNotice(id, message, kind)]
      ensures forall k :: 0 <= k < |old(body)| && old(body)[k].Notice? ==> old(body)[k].id != id
      ensures Valid()
    {
      id := nextNotice;
      nextNotice := nextNotice + 1;
      body := body + [NewNotice(id, message, kind)];
    }

    /**
     * A submission of the contact form. Exactly one notification is added,
     * for the outcome of the validator; the fields are reset only when the
     * message is sent.
     */
    method SubmitForm() returns (outcome: Outcome)
      requires Valid()
      modifies this`body, this`nextNotice, this`nombre, this`email, this`mensaje
      ensures outcome == Validate(old(nombre), old(email), old(mensaje))
      ensures |body| == |old(body)| + 1
      ensures body == old(body) + [NewNotice(old(nextNotice), Message(outcome), NotificationType(outcome))]
      ensures nextNotice == old(nextNotice) + 1
      ensures Valid()
      ensures outcome == Sent ==>
        nombre == Cleared(old(nombre)) && email == Cleared(old(email)) && mensaje == Cleared(old(mensaje))
      ensures outcome != Sent ==>
        nombre == old(nombre) && email == old(email) && mensaje == old(mensaje)
    {
      outcome := Validate(nombre, email, mensaje);
      var _ := ShowNotification(Message(outcome), NotificationType(outcome));
      if outcome == Sent {
        nombre, email, mensaje := Cleared(nombre), Cleared(email), Cleared(mensaje);
      }
    }

    /** The key handler: Escape removes every notification from the body; other keys do nothing. */
    method OnKeyDown(key: string)
      requires Valid()
      modifies this`body
      ensures body == if key == "Escape" then WithoutNotices(old(body)) else old(body)
      ensures Valid()
    {
      if key == "Escape" {
        var kept: seq<Child> := [];
        var i := 0;
        while i < |body|
          invariant 0 <= i <= |body|
          invariant kept == WithoutNotices(body[..i])
        {
          assert body[..i + 1][..i] == body[..i];
          if !body[i].Notice? {
            kept := kept + [body[i]];
          }
          i := i + 1;
        }
        assert body[..i] == body;
        body := kept;
        assert forall k :: 0 <= k < |body| ==> body[k] in kept;
      }
    }

    /**
     * The delayed `notification.remove()` of notification `id`. When it is
     * still in the body, exactly that one child goes and the others keep
     * their order; when it is gone, nothing happens.
     */
    method RemoveNotification(id: nat)
      requires Valid()
      modifies this`body
      ensures body == RemoveNotice(old(body), id)
      ensures forall k :: 0 <= k < |old(body)| && old(body)[k].Notice? && old(body)[k].id == id ==>
        body == old(body)[..k] + old(body)[k + 1..]
      ensures (forall k :: 0 <= k < |old(body)| ==> !(old(body)[k].Notice? && old(body)[k].id == id)) ==>
        body == old(body)
      ensures Valid()
    {
      RemoveKeepsUnique(body, id, nextNotice);
      body := RemoveNotice(body, id);
    }
  }
}
