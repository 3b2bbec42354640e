/**
 * The tag bar of pages/index.tsx: three buttons that select or clear one
 * tag (lines 111-148), and the dimming of every card whose tags do not
 * include the selected one (line 167).
 */
module TagFilter {
  import opened Basics
  import opened Classify

  /** The selection after clicking tag `t`'s button: off when `t` was on, otherwise `t`. */
  function Toggled(selected: Option<Tag>, t: Tag): (next: Option<Tag>)
    ensures next.None? <==> selected == Some(t)
    ensures next.Some? ==> next.value == t
  {
    if selected == Some(t) then None else Some(t)
  }

  /**
   * Clicking the same button twice ends with `t` selected if it was
   * selected before, and with nothing selected otherwise.
   */
  lemma ToggledTwice(selected: Option<Tag>, t: Tag)
    ensures Toggled(Toggled(selected, t), t) == if selected == Some(t) then selected else None
  {
  }

  /**
   * Two clicks on one button restore the selection exactly when nothing or
   * that very tag was selected; a different selected tag is lost.
   */
  lemma ToggledTwiceRestores(selected: Option<Tag>, t: Tag)
    ensures Toggled(Toggled(selected, t), t) == selected <==> selected.None? || selected == Some(t)
  {
    ToggledTwice(selected, t);
  }

  /** The `selectedTag` state of the page. */
  class TagBar {
    var selectedTag: Option<Tag>

    /** Nothing is selected when the page opens. */
    constructor ()
      ensures selectedTag == None
    {
      selectedTag := None;
    }

    /** A click on tag `t`'s button (`setSelectedTag(selectedTag === t ? null : t)`). */
    method Click(t: Tag)
      modifies this
      ensures selectedTag == Toggled(old(selectedTag), t)
    {
      if selectedTag == Some(t) {
        selectedTag := None;
      } else {
        selectedTag := Some(t);
      }
    }

    /** Whether a card showing `tags` is dimmed now. */
    predicate Dims(tags: seq<Tag>)
      reads this
    {
      NotCurrentTag(selectedTag, tags)
    }
  }

  /** `notCurrentTag` (line 167): a tag is selected and the card does not list it. */
  predicate NotCurrentTag(selected: Option<Tag>, tags: seq<Tag>): (dim: bool)
    ensures selected.None? ==> !dim
    ensures dim ==> forall k :: 0 <= k < |tags| ==> tags[k] != selected.value
  {
    selected.Some? && selected.value !in tags
  }

  /**
   * A card of type `t` is dimmed exactly when a tag is selected and the card
   * is untyped or its type does not carry that tag.
   */
  lemma CardDimmed(selected: Option<Tag>, t: Option<Type>)
    ensures NotCurrentTag(selected, TypeToTags(t)) <==> selected.Some? && (t.None? || !Carries(t.value, selected.value))
  {
    if selected.Some? && t.Some? {
      TypeToTagsCarried(t.value, selected.value);
    }
  }

  /** With no tag selected, no card is dimmed. */
  lemma NothingDimmedWithoutSelection(tags: seq<Tag>)
    ensures !NotCurrentTag(None, tags)
  {
  }

  /** A record whose id names no type is dimmed under every selected tag. */
  lemma UntypedCardDimmed(g: Tag, id: string)
    requires TypeOfId(id).None?
    ensures NotCurrentTag(Some(g), TypeToTags(TypeOfId(id)))
  {
  }

  /**
   * A "Cloud, containers and CI/CD" card is never dimmed, and every other
   * type is dimmed under some tag.
   */
  lemma OnlyTheFullTypeIsNeverDimmed(t: Type)
    ensures (forall g: Tag :: !NotCurrentTag(Some(g), TypeToTags(Some(t)))) <==> t == CloudContainersAndCiCdType
  {
    if t != CloudContainersAndCiCdType {
      var g := if t == CloudAndContainersType then CiCd else if t == CiCdType then Cloud else if t == CloudType then Containers else Cloud;
      CardDimmed(Some(g), Some(t));
    } else {
      forall g: Tag
        ensures !NotCurrentTag(Some(g), TypeToTags(Some(t)))
      {
        CardDimmed(Some(g), Some(t));
      }
    }
  }

  /** Clicking a tag and clicking it again leaves the page undimmed, from no selection. */
  method ClickTwiceFromStart(t: Tag) returns (bar: TagBar)
    ensures bar.selectedTag == None
    ensures forall tags: seq<Tag> :: !bar.Dims(tags)
  {
    bar := new TagBar();
    bar.Click(t);
    bar.Click(t);
  }
}
