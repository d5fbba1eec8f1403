/**
  The most basic event (lib/event_driven/event.rb): it carries no data, only a flag that a
  listener sets to stop the event from reaching the listeners after it.
*/
module Events {
  import opened Options

  class Event {
    /** The instance variable `@stopped`: unset (`nil`) until `stop_propagation` assigns `true`. */
    var stopped: Option<bool>

    /** `Event.new`: `@stopped` has never been assigned. */
    constructor ()
      ensures stopped == None
      ensures !IsStopped()
    {
      stopped := None;
    }

    /** `stop_propagation`: from now on the event reports itself stopped, however often it is called. */
    method StopPropagation()
      modifies this
      ensures stopped == Some(true)
      ensures IsStopped()
    {
      stopped := Some(true);
    }

    /** `stopped?`, that is `!!@stopped`: Ruby truthiness, where `nil` and `false` read as false. */
    function IsStopped(): (r: bool)
      reads this
      ensures r <==> stopped == Some(true)
    {
      match stopped
      case None => false
      case Some(b) => b
    }
  }
}
