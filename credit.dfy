/**
 * Attribution credits and the table that interns their html.
 *
 * Every credit is built from an html string. A registry shared by all credits
 * maps each html string it has seen to a numeric id, handed out from a counter,
 * so that two credits with the same html share an id and equality can compare
 * ids instead of strings.
 */
module Credits {
  import opened Wrappers
  import Strings

  // ---------------------------------------------------------------------------
  // The registry as a value, and the interning step
  // ---------------------------------------------------------------------------

  /** The registry's state: the html-to-id table and the next id to hand out. */
  datatype Table = Table(creditToId: map<string, nat>, nextCreditId: nat)

  /** What interning one html string yields: its id and the registry afterwards. */
  datatype Interned = Interned(id: nat, table: Table)

  /**
   * The registry invariant: distinct html strings have distinct ids, every id is
   * below the counter, and the counter equals the number of strings seen (so no
   * id was skipped).
   */
  ghost predicate TableValid(t: Table) {
    && (forall h :: h in t.creditToId ==> t.creditToId[h] < t.nextCreditId)
    && (forall h, h' :: h in t.creditToId && h' in t.creditToId && h != h' ==>
          t.creditToId[h] != t.creditToId[h'])
    && |t.creditToId| == t.nextCreditId
  }

  /** `t'` keeps every entry of `t`: ids once handed out never change. */
  ghost predicate Extends(t: Table, t': Table) {
    forall h :: h in t.creditToId ==> h in t'.creditToId && t'.creditToId[h] == t.creditToId[h]
  }

  /** The empty registry the program starts with. */
  function EmptyTable(): (t: Table)
    ensures TableValid(t)
    ensures forall h :: h !in t.creditToId
  {
    Table(map[], 0)
  }

  /** The id lookup the constructor performs on `html`, with its update of the registry. */
  function Intern(t: Table, html: string): (r: Interned)
    ensures html in r.table.creditToId && r.table.creditToId[html] == r.id
    ensures Extends(t, r.table)
    ensures html in t.creditToId ==> r.table == t
    ensures html !in t.creditToId ==>
              && r.id == t.nextCreditId
              && r.table.nextCreditId == t.nextCreditId + 1
              && r.table.creditToId.Keys == t.creditToId.Keys + {html}
    ensures TableValid(t) ==> TableValid(r.table)
  {
    if html in t.creditToId then
      Interned(t.creditToId[html], t)
    else
      Interned(t.nextCreditId, Table(t.creditToId[html := t.nextCreditId], t.nextCreditId + 1))
  }

  /** Interning a string a second time changes nothing and yields the same id. */
  lemma InternIdempotent(t: Table, html: string)
    ensures var once := Intern(t, html);
            Intern(once.table, html) == Interned(once.id, once.table)
  {
  }

  /** The ids and final registry of building credits from `htmls`, one after the other. */
  datatype InternedAll = InternedAll(ids: seq<nat>, table: Table)

  /**
   * Building credits from `htmls` in order. From a valid registry, this keeps
   * the invariant, keeps every earlier entry, and leaves each credit's html
   * mapped to the id the credit received.
   */
  function InternAll(t: Table, htmls: seq<string>): (r: InternedAll)
    ensures |r.ids| == |htmls|
    ensures TableValid(t) ==>
              && TableValid(r.table)
              && Extends(t, r.table)
              && forall i :: 0 <= i < |htmls| ==>
                   htmls[i] in r.table.creditToId && r.table.creditToId[htmls[i]] == r.ids[i]
    decreases |htmls|
  {
    if htmls == [] then InternedAll([], t)
    else
      var first := Intern(t, htmls[0]);
      var rest := InternAll(first.table, htmls[1..]);
      assert forall i :: 0 < i < |htmls| ==> htmls[i] == htmls[1..][i - 1];
      InternedAll([first.id] + rest.ids, rest.table)
  }

  /**
   * Whatever order credits are built in, two of them receive the same id
   * exactly when they were built from the same html.
   */
  lemma SameIdIffSameHtml(t: Table, htmls: seq<string>, i: nat, j: nat)
    requires TableValid(t)
    requires i < |htmls| && j < |htmls|
    ensures InternAll(t, htmls).ids[i] == InternAll(t, htmls).ids[j] <==> htmls[i] == htmls[j]
  {
  }

  // ---------------------------------------------------------------------------
  // The mutable registry and the credits
  // ---------------------------------------------------------------------------

  /** The registry shared by all credits: the table and the id counter. */
  class CreditRegistry {
    var creditToId: map<string, nat>
    var nextCreditId: nat

    function Snapshot(): Table
      reads this
    {
      Table(creditToId, nextCreditId)
    }

    ghost predicate Valid()
      reads this
    {
      TableValid(Snapshot())
    }

    /** The registry at program start: no html seen, counter at zero. */
    constructor ()
      ensures Valid()
      ensures Snapshot() == EmptyTable()
    {
      creditToId := map[];
      nextCreditId := 0;
    }
  }

  /** The DOM element a credit renders to (class name, credit id, display style, markup). */
  datatype CreditElement = CreditElement(className: string, creditId: nat, display: string, innerHtml: string)

  /** The marker that identifies the attribution credit of the hosted tiling service. */
  const IonCreditMarker: string := "ion-credit.png"

  /** An attribution record from the hosted tiling service. */
  datatype Attribution = Attribution(html: string, collapsible: Option<bool>)

  /** Credit `c` carries the id that registry state `t` holds for its html. */
  ghost predicate IssuedBy(t: Table, c: Credit) {
    c.html in t.creditToId && t.creditToId[c.html] == c.id
  }

  class Credit {
    const id: nat
    const html: string
    var showOnScreen: bool
    var element: Option<CreditElement>

    /**
     * `new Credit(html, showOnScreen)`: looks `html` up in the registry, taking
     * the stored id or the next counter value; an omitted flag means false.
     */
    constructor (registry: CreditRegistry, html: string, showOnScreen: Option<bool>)
      requires registry.Valid()
      modifies registry
      ensures registry.Valid()
      ensures Interned(id, registry.Snapshot()) == Intern(old(registry.Snapshot()), html)
      ensures this.html == html
      ensures showOnScreen.None? ==> !this.showOnScreen
      ensures showOnScreen.Some? ==> this.showOnScreen == showOnScreen.value
      ensures element == None
    {
      var newId: nat;
      if html in registry.creditToId {
        newId := registry.creditToId[html];
      } else {
        newId := registry.nextCreditId;
        registry.nextCreditId := registry.nextCreditId + 1;
        registry.creditToId := registry.creditToId[html := newId];
      }
      this.id := newId;
      this.html := html;
      this.showOnScreen := showOnScreen.GetOr(false);
      this.element := None;
    }

    /** The `showOnScreen` setter: only the flag changes. */
    method SetShowOnScreen(value: bool)
      modifies this`showOnScreen
      ensures showOnScreen == value
    {
      showOnScreen := value;
    }

    /**
     * The `element` getter. `sanitized` stands for the sanitiser's output on
     * `html`. The element is built on first use and the cached one is returned
     * afterwards.
     */
    method Element(sanitized: string) returns (e: CreditElement)
      modifies this`element
      ensures old(element).Some? ==> e == old(element).value
      ensures old(element).None? ==> e == CreditElement("cesium-credit-wrapper", id, "inline", sanitized)
      ensures element == Some(e)
    {
      if element.None? {
        element := Some(CreditElement("cesium-credit-wrapper", id, "inline", sanitized));
      }
      e := element.value;
    }

    /**
     * `Credit.equals(left, right)`: the same reference, or both defined with
     * the same id and the same `showOnScreen` flag.
     */
    static predicate Equals(left: Credit?, right: Credit?)
      reads left, right
      ensures left == right ==> Equals(left, right)
      ensures (left == null) != (right == null) ==> !Equals(left, right)
      ensures left != null && right != null && left.id != right.id ==> !Equals(left, right)
    {
      left == right ||
      (left != null && right != null && left.id == right.id && left.showOnScreen == right.showOnScreen)
    }

    /** `credit.equals(other)`: `Credit.equals(this, other)`. */
    predicate EqualTo(other: Credit?)
      reads this, other
      ensures EqualTo(other) <==> Equals(this, other)
      ensures other == null ==> !EqualTo(other)
    {
      Equals(this, other)
    }

    /** `isIon()`: the html mentions the hosted service's credit image. */
    predicate IsIon()
      ensures IsIon() <==> Strings.Contains(html, IonCreditMarker)
    {
      Strings.IndexOf(html, IonCreditMarker) != -1
    }

    /** `Credit.clone(credit)`: undefined for undefined, else a new credit from the same html and flag. */
    static method Clone(registry: CreditRegistry, credit: Credit?) returns (c: Credit?)
      requires registry.Valid()
      modifies registry
      ensures registry.Valid()
      ensures credit == null ==> c == null && registry.Snapshot() == old(registry.Snapshot())
      ensures credit != null ==>
                && c != null && fresh(c)
                && c.html == credit.html
                && c.showOnScreen == credit.showOnScreen
                && c.element == None
                && Interned(c.id, registry.Snapshot()) == Intern(old(registry.Snapshot()), credit.html)
      ensures credit != null && IssuedBy(old(registry.Snapshot()), credit) ==>
                Equals(c, credit) && registry.Snapshot() == old(registry.Snapshot())
    {
      if credit != null {
        c := new Credit(registry, credit.html, Some(credit.showOnScreen));
      } else {
        c := null;
      }
    }

    /** `Credit.getIonCredit(attribution)`: a credit for the attribution's html, on screen when it is not collapsible. */
    static method GetIonCredit(registry: CreditRegistry, attribution: Attribution) returns (c: Credit)
      requires registry.Valid()
      modifies registry
      ensures registry.Valid()
      ensures fresh(c)
      ensures c.html == attribution.html
      ensures c.showOnScreen <==> attribution.collapsible == Some(false)
      ensures c.element == None
      ensures Interned(c.id, registry.Snapshot()) == Intern(old(registry.Snapshot()), attribution.html)
    {
      c := new Credit(registry, attribution.html, Some(attribution.collapsible == Some(false)));
    }
  }

  // ---------------------------------------------------------------------------
  // Properties of equality
  // ---------------------------------------------------------------------------

  lemma EqualsSymmetric(a: Credit?, b: Credit?)
    ensures Credit.Equals(a, b) <==> Credit.Equals(b, a)
  {
  }

  lemma EqualsTransitive(a: Credit?, b: Credit?, c: Credit?)
    requires Credit.Equals(a, b) && Credit.Equals(b, c)
    ensures Credit.Equals(a, c)
  {
  }

  /**
   * For credits issued by one valid registry, comparing ids is the same as
   * comparing html: two credits are equal exactly when they have the same html
   * and the same flag.
   */
  lemma EqualsIffSameContent(t: Table, a: Credit, b: Credit)
    requires TableValid(t)
    requires IssuedBy(t, a) && IssuedBy(t, b)
    ensures Credit.Equals(a, b) <==> a.html == b.html && a.showOnScreen == b.showOnScreen
  {
  }

  /** A credit stays issued as the registry grows. */
  lemma IssuedStable(t: Table, t': Table, c: Credit)
    requires IssuedBy(t, c) && Extends(t, t')
    ensures IssuedBy(t', c)
  {
  }
}
