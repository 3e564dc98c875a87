/** The profile page's social-link editor (frontend/src/pages/Profile.jsx):
    the list of links being edited and the link being typed in. Adding
    appends the typed link when both of its fields are filled in; removing
    drops the link at an index. Both build a new list from the old one. */
module Profile {
  import opened Store

  /** The editor's state: the links shown and the link in the input fields. */
  datatype LinkEditor = LinkEditor(socialLinks: seq<Link>, newLink: Link)

  const EmptyLink := Link("", "")

  /** Both fields filled in, the test handleAddLink makes. */
  predicate Complete(l: Link) {
    l.labelText != "" && l.url != ""
  }

  predicate AllComplete(links: seq<Link>) {
    forall k :: 0 <= k < |links| ==> Complete(links[k])
  }

  /** handleAddLink */
  function AddLink(e: LinkEditor): (r: LinkEditor)
    ensures Complete(e.newLink) ==>
              && |r.socialLinks| == |e.socialLinks| + 1
              && r.socialLinks[..|e.socialLinks|] == e.socialLinks
              && r.socialLinks[|e.socialLinks|] == e.newLink
              && r.newLink == EmptyLink
    ensures !Complete(e.newLink) ==> r == e
  {
    if Complete(e.newLink) then LinkEditor(e.socialLinks + [e.newLink], EmptyLink) else e
  }

  /** Adding never lets an incomplete link into a list of complete links. */
  lemma AddLinkKeepsComplete(e: LinkEditor)
    requires AllComplete(e.socialLinks)
    ensures AllComplete(AddLink(e).socialLinks)
  {
    var r := AddLink(e);
    if Complete(e.newLink) {
      forall k | 0 <= k < |r.socialLinks| ensures Complete(r.socialLinks[k]) {
        if k < |e.socialLinks| {
          assert r.socialLinks[k] == r.socialLinks[..|e.socialLinks|][k];
        }
      }
    }
  }

  /** A second press right after an add does nothing: the input fields are empty. */
  lemma AddLinkTwice(e: LinkEditor)
    ensures AddLink(AddLink(e)) == AddLink(e)
  {
  }

  /** The links whose index passes keep, in order: Array.prototype.filter
      with a callback that reads only the index. */
  function KeepWhere(links: seq<Link>, keep: int -> bool): (r: seq<Link>)
    ensures |r| <= |links|
    decreases |links|
  {
    if links == [] then []
    else KeepWhere(links[..|links| - 1], keep) + (if keep(|links| - 1) then [links[|links| - 1]] else [])
  }

  /** The callback as written, `(_, i) => {i !== idx}`: a block body without
      a return statement, so it returns undefined, which filter reads as false. */
  function KeptAsWritten(idx: int): int -> bool {
    i => false
  }

  /** handleRemoveLink as written. */
  function RemoveLinkAsWritten(links: seq<Link>, idx: int): seq<Link> {
    KeepWhere(links, KeptAsWritten(idx))
  }

  /** A callback that rejects every index keeps nothing. */
  lemma {:induction false} KeepNone(links: seq<Link>, keep: int -> bool)
    requires forall i :: !keep(i)
    ensures KeepWhere(links, keep) == []
    decreases |links|
  {
    if links != [] {
      KeepNone(links[..|links| - 1], keep);
    }
  }

  /** As written, removing any one link empties the whole list. */
  lemma RemoveLinkAsWrittenEmpties(links: seq<Link>, idx: int)
    ensures RemoveLinkAsWritten(links, idx) == []
  {
    KeepNone(links, KeptAsWritten(idx));
  }

  /** With two links, removing the first also loses the second. */
  lemma RemoveLinkAsWrittenLosesOthers()
    ensures RemoveLinkAsWritten([Link("GitHub", "g"), Link("Blog", "b")], 0) == []
    ensures RemoveLink([Link("GitHub", "g"), Link("Blog", "b")], 0) == [Link("Blog", "b")]
  {
    RemoveLinkAsWrittenEmpties([Link("GitHub", "g"), Link("Blog", "b")], 0);
    RemoveLinkDropsOne([Link("GitHub", "g"), Link("Blog", "b")], 0);
  }

  /** The callback the handler means, `(_, i) => i !== idx`. */
  function KeptIntended(idx: int): int -> bool {
    i => i != idx
  }

  /** handleRemoveLink as intended: every link but the one at idx. */
  function RemoveLink(links: seq<Link>, idx: int): seq<Link> {
    KeepWhere(links, KeptIntended(idx))
  }

  /** Removing drops exactly the link at idx and keeps the others in order;
      an index outside the list removes nothing. */
  lemma {:induction false} RemoveLinkDropsOne(links: seq<Link>, idx: int)
    ensures 0 <= idx < |links| ==> RemoveLink(links, idx) == links[..idx] + links[idx + 1..]
    ensures !(0 <= idx < |links|) ==> RemoveLink(links, idx) == links
    decreases |links|
  {
    if links != [] {
      var init, last := links[..|links| - 1], links[|links| - 1];
      RemoveLinkDropsOne(init, idx);
      if idx == |links| - 1 {
        assert init == links[..idx] + links[idx + 1..];
      } else if 0 <= idx < |links| - 1 {
        assert init[..idx] == links[..idx];
        assert init[idx + 1..] + [last] == links[idx + 1..];
      } else {
        assert init + [last] == links;
      }
    }
  }

  /** Removing keeps a list of complete links complete. */
  lemma RemoveLinkKeepsComplete(links: seq<Link>, idx: int)
    requires AllComplete(links)
    ensures AllComplete(RemoveLink(links, idx))
  {
    RemoveLinkDropsOne(links, idx);
    if 0 <= idx < |links| {
      var r := RemoveLink(links, idx);
      forall k | 0 <= k < |r| ensures Complete(r[k]) {
        if k < idx {
          assert r[k] == links[k];
        } else {
          assert r[k] == links[k + 1];
        }
      }
    }
  }

  /** The editor after a link is removed; the link being typed stays. */
  function RemoveLinkAt(e: LinkEditor, idx: int): (r: LinkEditor)
    ensures r.newLink == e.newLink
    ensures 0 <= idx < |e.socialLinks| ==> |r.socialLinks| == |e.socialLinks| - 1
    ensures !(0 <= idx < |e.socialLinks|) ==> r == e
  {
    RemoveLinkDropsOne(e.socialLinks, idx);
    e.(socialLinks := RemoveLink(e.socialLinks, idx))
  }

  /** Adding a link and then removing it, by its index at the end, restores the list. */
  lemma AddThenRemove(e: LinkEditor)
    requires Complete(e.newLink)
    ensures RemoveLinkAt(AddLink(e), |e.socialLinks|).socialLinks == e.socialLinks
  {
    var a := AddLink(e);
    RemoveLinkDropsOne(a.socialLinks, |e.socialLinks|);
  }
}
