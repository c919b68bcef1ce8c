/**
 The controller's event map and the modal day dialog that edits it. The
 dialog keeps its own list of the day's events on screen; its Add and Delete
 handlers change that list and the controller's map together.
 */
module Calendar {
  import opened Text
  import opened DateKey
  import opened EventStore

  datatype Option<T> = None | Some(value: T)

  /** The controller's session state: the per-day event map, empty at start and never persisted. */
  class CalendarController {
    var eventMap: Store

    constructor ()
      ensures eventMap == map[]
    {
      eventMap := map[];
    }
  }

  /** An open day dialog: the date it was opened for and the event list it shows. */
  class DayDialog {
    const controller: CalendarController
    const date: string
    const title: string
    var view: seq<string>

    /** The list on screen is the map's entry for this date, or empty while the date has no entry. */
    ghost predicate Valid()
      reads this, controller
    {
      if date in controller.eventMap then view == controller.eventMap[date] else view == []
    }

    /** Opening the dialog loads a copy of the date's events, or an empty list when it has none. */
    constructor (controller: CalendarController, day: int, month: int, year: int)
      ensures this.controller == controller && date == Key(Date(day, month, year))
      ensures title == Title(Date(day, month, year))
      ensures view == Lookup(controller.eventMap, date)
      ensures Valid()
    {
      var key := Key(Date(day, month, year));
      this.controller := controller;
      date := key;
      title := Title(Date(day, month, year));
      view := Lookup(controller.eventMap, key);
    }

    /** The Add button: a blank entry is ignored; otherwise the trimmed text goes last on screen and in the map. */
    method Add(text: string)
      requires Valid()
      modifies this`view, controller`eventMap
      ensures Valid()
      ensures controller.eventMap == AddEvent(old(controller.eventMap), date, text)
      ensures view == if Trim(text) == [] then old(view) else old(view) + [Trim(text)]
    {
      var newEvent := Trim(text);
      if newEvent != [] {
        view := view + [newEvent];
        if date !in controller.eventMap {
          controller.eventMap := controller.eventMap[date := []];
        }
        controller.eventMap := controller.eventMap[date := controller.eventMap[date] + [newEvent]];
        assert view == controller.eventMap[date];
      }
    }

    /**
     The Delete button: with no selection nothing changes; otherwise the first
     copy of the selected text leaves the screen list and the map entry. The
     selection is always an item of the list on screen, so the invariant
     guarantees the date has an entry.
     */
    method Delete(selected: Option<string>)
      requires Valid()
      requires selected.Some? ==> selected.value in view
      modifies this`view, controller`eventMap
      ensures Valid()
      ensures selected.None? ==> view == old(view) && controller.eventMap == old(controller.eventMap)
      ensures selected.Some? ==>
        && date in old(controller.eventMap)
        && controller.eventMap == DeleteEvent(old(controller.eventMap), date, selected.value)
        && view == RemoveFirst(old(view), selected.value)
    {
      if selected.Some? {
        view := RemoveFirst(view, selected.value);
        controller.eventMap := controller.eventMap[date := RemoveFirst(controller.eventMap[date], selected.value)];
      }
    }
  }
}
