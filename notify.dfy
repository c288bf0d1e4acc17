/**
 * Notifications: the element `showNotification` builds, and the children of
 * the document body that the Escape key and the removal timer take away.
 */
module Notify {

  const SuccessIcon := "fa-check-circle"
  const ErrorIcon := "fa-exclamation-circle"

  /**
   * A child of the document body: page content, which nothing here removes,
   * or a notification with its identity, class attribute, icon class and
   * message.
   */
  datatype Child =
    | Content(id: nat)
    | Notice(id: nat, className: string, icon: string, message: string)

  const NoticePrefix := "notification notification-"

  /**
   * The class attribute of a notification of `kind`: the two classes
   * `notification` and `notification-<kind>`; different kinds give
   * different attributes.
   */
  function NoticeClass(kind: string): (c: string)
    ensures |c| == |NoticePrefix| + |kind|
    ensures c[..|NoticePrefix|] == NoticePrefix && c[|NoticePrefix|..] == kind
  {
    NoticePrefix + kind
  }

  /** The kind can be read back from the class attribute, so different kinds never share one. */
  lemma NoticeClassInjective(a: string, b: string)
    ensures NoticeClass(a) == NoticeClass(b) ==> a == b
  {
    if NoticeClass(a) == NoticeClass(b) {
      assert a == NoticeClass(a)[|NoticePrefix|..];
    }
  }

  /** The icon of a notification: the check mark exactly for `success`. */
  function NoticeIcon(kind: string): (icon: string)
    ensures icon == SuccessIcon <==> kind == "success"
    ensures icon == SuccessIcon || icon == ErrorIcon
  {
    if kind == "success" then SuccessIcon else ErrorIcon
  }

  /** The element built for `message` and `kind`. */
  function NewNotice(id: nat, message: string, kind: string): (c: Child)
    ensures c.Notice? && c.id == id && c.message == message
    ensures c.className == NoticeClass(kind)
    ensures c.icon == SuccessIcon <==> kind == "success"
  {
    Notice(id, NoticeClass(kind), NoticeIcon(kind), message)
  }

  /**
   * The body once every notification is removed: no notification is left,
   * and every piece of content is still there.
   */
  function WithoutNotices(body: seq<Child>): (r: seq<Child>)
    ensures |r| <= |body|
    ensures forall c :: c in r ==> c.Content? && c in body
    ensures forall c :: c in body && c.Content? ==> c in r
  {
    if body == [] then []
    else
      var last := body[|body| - 1];
      WithoutNotices(body[..|body| - 1]) + (if last.Notice? then [] else [last])
  }

  /** Removing notifications keeps the content in its order: it distributes over concatenation. */
  lemma {:induction false} WithoutNoticesAppend(a: seq<Child>, b: seq<Child>)
    ensures WithoutNotices(a + b) == WithoutNotices(a) + WithoutNotices(b)
    decreases |b|
  {
    if b != [] {
      var init := b[..|b| - 1];
      assert (a + b)[..|a + b| - 1] == a + init;
      WithoutNoticesAppend(a, init);
    } else {
      assert a + b == a;
    }
  }

  /** A body that already holds no notification is left as it is. */
  lemma {:induction false} WithoutNoticesIdle(body: seq<Child>)
    requires forall k :: 0 <= k < |body| ==> body[k].Content?
    ensures WithoutNotices(body) == body
  {
    if body != [] {
      var front := body[..|body| - 1];
      WithoutNoticesIdle(front);
      assert body == front + [body[|body| - 1]];
    }
  }

  /**
   * The body after `notification.remove()` for the notification `id`: that
   * notification is gone, every other child is still there (in order, by
   * `RemoveNoticeAppend`).
   */
  function RemoveNotice(body: seq<Child>, id: nat): (r: seq<Child>)
    ensures |r| <= |body|
    ensures forall c :: c in r ==> c in body && !(c.Notice? && c.id == id)
    ensures forall c :: c in body && !(c.Notice? && c.id == id) ==> c in r
  {
    if body == [] then []
    else
      var last := body[|body| - 1];
      RemoveNotice(body[..|body| - 1], id) + (if last.Notice? && last.id == id then [] else [last])
  }

  /** Removing one notification distributes over concatenation, so the other children keep their order. */
  lemma {:induction false} RemoveNoticeAppend(a: seq<Child>, b: seq<Child>, id: nat)
    ensures RemoveNotice(a + b, id) == RemoveNotice(a, id) + RemoveNotice(b, id)
    decreases |b|
  {
    if b != [] {
      var init := b[..|b| - 1];
      assert (a + b)[..|a + b| - 1] == a + init;
      RemoveNoticeAppend(a, init, id);
    } else {
      assert a + b == a;
    }
  }

  /**
   * Removing a notification that is no longer in the body changes nothing:
   * the removal timer firing after Escape is harmless.
   */
  lemma {:induction false} RemoveAbsentNotice(body: seq<Child>, id: nat)
    requires forall k :: 0 <= k < |body| ==> !(body[k].Notice? && body[k].id == id)
    ensures RemoveNotice(body, id) == body
  {
    if body != [] {
      var front, last := body[..|body| - 1], body[|body| - 1];
      assert forall k :: 0 <= k < |front| ==> front[k] == body[k];
      RemoveAbsentNotice(front, id);
      assert RemoveNotice(body, id) == front + [last];
      assert body == front + [last];
    }
  }

  /**
   * When the body holds the notification `id` exactly once, at `k`, its
   * removal takes out that one child and nothing else.
   */
  lemma RemoveOneNotice(body: seq<Child>, id: nat, k: nat)
    requires k < |body| && body[k].Notice? && body[k].id == id
    requires forall j :: 0 <= j < |body| && j != k ==> !(body[j].Notice? && body[j].id == id)
    ensures RemoveNotice(body, id) == body[..k] + body[k + 1..]
  {
    var front, back := body[..k], body[k + 1..];
    assert forall j :: 0 <= j < |front| ==> front[j] == body[j];
    assert forall j :: 0 <= j < |back| ==> back[j] == body[k + 1 + j];
    RemoveBetween(front, body[k], back, id);
    assert body == front + ([body[k]] + back);
  }

  /** The notification `id` between two stretches without it is the only child removed. */
  lemma RemoveBetween(front: seq<Child>, x: Child, back: seq<Child>, id: nat)
    requires x.Notice? && x.id == id
    requires forall j :: 0 <= j < |front| ==> !(front[j].Notice? && front[j].id == id)
    requires forall j :: 0 <= j < |back| ==> !(back[j].Notice? && back[j].id == id)
    ensures RemoveNotice(front + ([x] + back), id) == front + back
  {
    var tail := [x] + back;
    RemoveNoticeAppend([x], back, id);
    RemoveNoticeSingle(x, id);
    RemoveAbsentNotice(back, id);
    assert RemoveNotice(tail, id) == back by {
      assert RemoveNotice(tail, id) == [] + back;
    }
    RemoveNoticeAppend(front, tail, id);
    RemoveAbsentNotice(front, id);
  }

  lemma RemoveNoticeSingle(c: Child, id: nat)
    ensures RemoveNotice([c], id) == if c.Notice? && c.id == id then [] else [c]
  {
    assert [c][..0] == [];
  }

  /**
   * The body as `showNotification` leaves it: every notification's identity
   * is below `next`, the next one to hand out, and no two notifications
   * share an identity.
   */
  predicate UniqueNotices(body: seq<Child>, next: nat)
  {
    (forall k :: 0 <= k < |body| && body[k].Notice? ==> body[k].id < next) &&
    (forall j, k ::
      0 <= j < |body| && 0 <= k < |body| && body[j].Notice? && body[k].Notice? && body[j].id == body[k].id
      ==> j == k)
  }

  /**
   * On such a body, removing the notification `id` takes out exactly that
   * one child when it is there, changes nothing when it is gone, and leaves
   * a body of the same kind.
   */
  lemma RemoveKeepsUnique(body: seq<Child>, id: nat, next: nat)
    requires UniqueNotices(body, next)
    ensures UniqueNotices(RemoveNotice(body, id), next)
    ensures forall k :: 0 <= k < |body| && body[k].Notice? && body[k].id == id ==>
      RemoveNotice(body, id) == body[..k] + body[k + 1..]
    ensures (forall k :: 0 <= k < |body| ==> !(body[k].Notice? && body[k].id == id)) ==>
      RemoveNotice(body, id) == body
  {
    if k :| 0 <= k < |body| && body[k].Notice? && body[k].id == id {
      RemoveOneNotice(body, id, k);
      DropKeepsUnique(body, k, next);
    } else {
      RemoveAbsentNotice(body, id);
    }
  }

  /** Taking one child out of such a body leaves a body of the same kind. */
  lemma DropKeepsUnique(body: seq<Child>, k: nat, next: nat)
    requires UniqueNotices(body, next) && k < |body|
    ensures UniqueNotices(body[..k] + body[k + 1..], next)
  {
    var r := body[..k] + body[k + 1..];
    assert forall j :: 0 <= j < |r| ==> r[j] == body[if j < k then j else j + 1];
    forall j, l | 0 <= j < |r| && 0 <= l < |r| && r[j].Notice? && r[l].Notice? && r[j].id == r[l].id
      ensures j == l
    {
      var j', l' := if j < k then j else j + 1, if l < k then l else l + 1;
      assert r[j] == body[j'] && r[l] == body[l'];
    }
  }

  /** After Escape, the late removal of any notification leaves the body unchanged. */
  lemma DismissAfterEscape(body: seq<Child>, id: nat)
    ensures RemoveNotice(WithoutNotices(body), id) == WithoutNotices(body)
  {
    var r := WithoutNotices(body);
    assert forall k :: 0 <= k < |r| ==> r[k] in r;
    RemoveAbsentNotice(r, id);
  }
}
