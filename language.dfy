/** The language selector (script.js:20-82). The trigger is the first
    navigation button that is not the sign-in button; the panel built for it
    holds one row per supported language. The panel's `style.display` is
    modelled as `visible` (`'block'` is true, `'none'` false), the trigger's
    text as `buttonText`, and `document.documentElement.lang` as `lang`. */
module LanguageMenu {

  /** One supported language: its code and the name shown in its row. */
  datatype Language = Language(code: string, name: string)

  /** The fixed table of supported languages, in the order the rows appear. */
  const Languages: seq<Language> := [
    Language("en", "English"),
    Language("hi", "हिन्दी"),
    Language("ta", "தமிழ்"),
    Language("te", "తెలుగు")
  ]

  /** The position of a row of the panel. */
  type LanguageIndex = k: nat | k < |Languages| witness 0

  /** The element a click lands on, as far as the handlers can tell. */
  datatype Target =
    | Trigger                  // the language button itself
    | TriggerContent           // an element nested inside the language button
    | Row(k: LanguageIndex)    // the row of `Languages[k]`, inside the panel
    | Panel                    // the panel outside every row
    | Outside                  // anything else on the page

  predicate InsidePanel(t: Target)
  {
    t.Row? || t.Panel?
  }

  /** What the handlers can change. */
  datatype MenuState = MenuState(visible: bool, buttonText: string, lang: string)

  /** The trigger's own handler: flips the panel between shown and hidden. */
  function AfterTrigger(m: MenuState): (r: MenuState)
    ensures r.visible != m.visible
    ensures r.buttonText == m.buttonText && r.lang == m.lang
  {
    m.(visible := !m.visible)
  }

  /** A row's own handler: copies the row's name onto the trigger, hides the
      panel and sets the document's language to the row's code. */
  function AfterRow(m: MenuState, k: LanguageIndex): (r: MenuState)
    ensures !r.visible
    ensures r.buttonText == Languages[k].name && r.lang == Languages[k].code
  {
    MenuState(false, Languages[k].name, Languages[k].code)
  }

  /** The document's handler, which runs after the element's own handler
      once the click has bubbled up: hides the panel unless the click landed
      on the trigger or inside the panel. */
  function AfterDocument(m: MenuState, t: Target): (r: MenuState)
    ensures r.buttonText == m.buttonText && r.lang == m.lang
    ensures r.visible == (m.visible && (t.Trigger? || InsidePanel(t)))
  {
    if t != Trigger && !InsidePanel(t) then m.(visible := false) else m
  }

  /** A whole click on `t`: the handler of the element clicked (if it has one),
      then the document's handler. When the trigger is absent
      (`wired` is false) no handler was attached and nothing changes. */
  function AfterClick(wired: bool, m: MenuState, t: Target): (r: MenuState)
    ensures !wired ==> r == m
    ensures wired ==> r.visible == ((t.Trigger? && !m.visible) || (t.Panel? && m.visible))
    ensures wired && t.Row? ==> r.buttonText == Languages[t.k].name && r.lang == Languages[t.k].code
    ensures !t.Row? ==> r.buttonText == m.buttonText && r.lang == m.lang
  {
    if !wired then m
    else
      var own := match t
        case Trigger => AfterTrigger(m)
        case TriggerContent => AfterTrigger(m)
        case Row(k) => AfterRow(m, k)
        case _ => m;
      AfterDocument(own, t)
  }

  /** A click on the trigger flips the panel's visibility, and the
      document's handler does not undo it. */
  lemma TriggerClickToggles(m: MenuState)
    ensures AfterClick(true, m, Trigger) == m.(visible := !m.visible)
  {
  }

  /** A click on an element nested inside the trigger runs the trigger's
      handler on its way up, but the document's handler then sees a target
      that is neither the trigger nor inside the panel: the panel always
      ends hidden, so such a click never opens it. */
  lemma TriggerContentClickHides(m: MenuState)
    ensures AfterClick(true, m, TriggerContent) == m.(visible := false)
  {
  }

  /** Two clicks on the trigger restore the panel's visibility. */
  lemma TriggerClickTwiceRestores(m: MenuState)
    ensures AfterClick(true, AfterClick(true, m, Trigger), Trigger) == m
  {
  }

  /** A click on row `k` selects `Languages[k]` and hides the panel,
      whatever the state before. */
  lemma RowClickSelects(m: MenuState, k: LanguageIndex)
    ensures AfterClick(true, m, Row(k)) == MenuState(false, Languages[k].name, Languages[k].code)
  {
  }

  /** The language codes are distinct, so the document's language after a
      selection tells which row was clicked. */
  lemma SelectionDeterminesRow(m: MenuState, m': MenuState, k: LanguageIndex, k': LanguageIndex)
    requires AfterClick(true, m, Row(k)).lang == AfterClick(true, m', Row(k')).lang
    ensures k == k'
  {
  }

  /** A click outside both the trigger and the panel hides the panel, and a
      click on the panel outside every row changes nothing. */
  lemma OtherClicks(m: MenuState)
    ensures AfterClick(true, m, Outside) == m.(visible := false)
    ensures AfterClick(true, m, Panel) == m
  {
  }

  /** Without a trigger the feature is skipped: no click changes anything. */
  lemma UnwiredClickChangesNothing(m: MenuState, t: Target)
    ensures AfterClick(false, m, t) == m
  {
  }

  /** A row of the panel as built: its text and its `data-lang-code`. */
  datatype OptionRow = OptionRow(text: string, langCode: string)

  /** The page's language selector. */
  class Menu {
    /** Whether the trigger exists, so that the panel was built and the
        handlers attached. */
    const wired: bool
    var visible: bool
    var buttonText: string
    var lang: string
    /** The rows appended to the panel, in order. */
    var rows: seq<OptionRow>

    /** The rows are exactly the fixed languages, in order, when the panel
        exists, and there are none otherwise. */
    ghost predicate Valid()
      reads this
    {
      |rows| == (if wired then |Languages| else 0) &&
      forall k :: 0 <= k < |rows| ==> rows[k] == OptionRow(Languages[k].name, Languages[k].code)
    }

    /** The part of the page the handlers change. */
    function State(): (r: MenuState)
      reads this
    {
      MenuState(visible, buttonText, lang)
    }

    /** Sets up the feature on page load. `initialLabel` and `initialLang`
        come from the markup. The panel starts hidden. */
    constructor (triggerPresent: bool, initialLabel: string, initialLang: string)
      ensures Valid()
      ensures wired == triggerPresent
      ensures State() == MenuState(false, initialLabel, initialLang)
    {
      wired := triggerPresent;
      visible := false;
      buttonText := initialLabel;
      lang := initialLang;
      rows := [];
      new;
      if triggerPresent {
        for k := 0 to |Languages|
          invariant |rows| == k
          invariant forall j :: 0 <= j < k ==> rows[j] == OptionRow(Languages[j].name, Languages[j].code)
          invariant wired && State() == MenuState(false, initialLabel, initialLang)
        {
          rows := rows + [OptionRow(Languages[k].name, Languages[k].code)];
        }
      }
    }

    /** The trigger's click handler. */
    method TriggerClicked()
      requires Valid() && wired
      modifies this
      ensures Valid() && rows == old(rows)
      ensures State() == AfterTrigger(old(State()))
    {
      visible := !visible;
    }

    /** The click handler of row `k`, which reads the row's own text and
        language code. */
    method RowClicked(k: LanguageIndex)
      requires Valid() && wired
      modifies this
      ensures Valid() && rows == old(rows)
      ensures State() == AfterRow(old(State()), k)
    {
      buttonText := rows[k].text;
      visible := false;
      lang := rows[k].langCode;
    }

    /** The document's click handler. */
    method DocumentClicked(t: Target)
      requires Valid() && wired
      modifies this
      ensures Valid() && rows == old(rows)
      ensures State() == AfterDocument(old(State()), t)
    {
      if t != Trigger && !InsidePanel(t) {
        visible := false;
      }
    }

    /** A click on `t`, dispatched as the browser does: the clicked element's
        handler first, then the document's. */
    method Click(t: Target)
      requires Valid()
      modifies this
      ensures Valid() && rows == old(rows)
      ensures State() == AfterClick(wired, old(State()), t)
    {
      if wired {
        match t {
          case Trigger => TriggerClicked();
          case TriggerContent => TriggerClicked();
          case Row(k) => RowClicked(k);
          case _ =>
        }
        DocumentClicked(t);
      }
    }
  }
}
