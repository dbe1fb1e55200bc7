/**
 * Reminder alarms: the trigger time of an event's reminder, the guards that
 * decide whether it is scheduled, and the registry of pending alarms keyed
 * by event id. The strict "yyyy-MM-dd HH:mm" parse in the local time zone
 * and the clock are parameters.
 */
module Alarms {
  import opened Wrappers

  /** The label that turns the reminder off. */
  const SinRecordatorio: string := "Sin recordatorio"

  /** One minute in milliseconds: also the shortest accepted lead time. */
  const MinuteMillis: int := 60000

  /** The reminder labels the scheduler knows, with their lead in minutes. */
  const Offsets: map<string, int> := map[
    "A la hora del evento" := 0,
    "5 minutos antes" := 5,
    "15 minutos antes" := 15,
    "30 minutos antes" := 30,
    "1 hora antes" := 60,
    "1 día antes" := 1440]

  /** The `when (recordatorio)` table; an unknown label counts as zero minutes. */
  function MinutesBefore(recordatorio: string): (m: int)
    ensures recordatorio in Offsets ==> m == Offsets[recordatorio]
    ensures recordatorio !in Offsets ==> m == 0
    ensures 0 <= m <= 1440
  {
    match recordatorio
    case "A la hora del evento" => 0
    case "5 minutos antes" => 5
    case "15 minutos antes" => 15
    case "30 minutos antes" => 30
    case "1 hora antes" => 60
    case "1 día antes" => 1440
    case _ => 0
  }

  /** The text handed to the date parser: the date, a space, the time. */
  function DateTimeString(fecha: string, hora: string): string {
    fecha + " " + hora
  }

  /**
   * `calculateTriggerTime`: the event instant less the reminder's lead, or
   * nothing when the date and time do not parse.
   */
  function CalculateTriggerTime(fecha: string, hora: string, recordatorio: string,
                                parse: string -> Option<int>): (r: Option<int>)
    ensures r.Some? <==> parse(DateTimeString(fecha, hora)).Some?
    ensures r.Some? ==> parse(DateTimeString(fecha, hora)).value - r.value
                        == MinutesBefore(recordatorio) * MinuteMillis
  {
    var eventDateTime := parse(DateTimeString(fecha, hora));
    if eventDateTime.None? then None
    else
      var minutesBefore := MinutesBefore(recordatorio);
      Some(eventDateTime.value - minutesBefore * 60 * 1000)
  }

  /** The lead of a computed trigger is one of the table's, never more than a day. */
  lemma TriggerLeadIsListed(fecha: string, hora: string, recordatorio: string,
                            parse: string -> Option<int>)
    requires CalculateTriggerTime(fecha, hora, recordatorio, parse).Some?
    ensures var lead := parse(DateTimeString(fecha, hora)).value
                        - CalculateTriggerTime(fecha, hora, recordatorio, parse).value;
      && lead in {0, 300000, 900000, 1800000, 3600000, 86400000}
      && 0 <= lead <= 86400000
  {
  }

  /** A label outside the table is not rejected: the alarm fires at the event itself. */
  lemma UnknownLabelFiresAtEvent(fecha: string, hora: string, recordatorio: string,
                                 parse: string -> Option<int>)
    requires recordatorio !in Offsets
    requires parse(DateTimeString(fecha, hora)).Some?
    ensures CalculateTriggerTime(fecha, hora, recordatorio, parse)
            == parse(DateTimeString(fecha, hora))
  {
  }

  /** How `scheduleAlarm` ends. */
  datatype Decision =
    | NoReminder
    | ParseError
    | TooSoon(untilAlarm: int)
    | Schedule(trigger: int)

  /** The guard chain of `scheduleAlarm`, in its order. */
  function ScheduleDecision(fecha: string, hora: string, recordatorio: string,
                            now: int, parse: string -> Option<int>): (d: Decision)
    ensures recordatorio == SinRecordatorio ==> d == NoReminder
    ensures d.Schedule? ==> CalculateTriggerTime(fecha, hora, recordatorio, parse) == Some(d.trigger)
    ensures d.TooSoon? ==> d.untilAlarm < MinuteMillis
  {
    if recordatorio == SinRecordatorio then NoReminder
    else
      var triggerTimeMillis := CalculateTriggerTime(fecha, hora, recordatorio, parse);
      if triggerTimeMillis.None? then ParseError
      else
        var timeUntilAlarm := triggerTimeMillis.value - now;
        if timeUntilAlarm < 60000 then TooSoon(timeUntilAlarm)
        else Schedule(triggerTimeMillis.value)
  }

  /**
   * An alarm is scheduled exactly when a reminder is wanted, the date parses,
   * and the trigger is at least a minute ahead of now; it then lies between
   * that minute and the event itself.
   */
  lemma ScheduledExactly(fecha: string, hora: string, recordatorio: string,
                         now: int, parse: string -> Option<int>)
    ensures var d := ScheduleDecision(fecha, hora, recordatorio, now, parse);
            var event := parse(DateTimeString(fecha, hora));
      && (d.Schedule? <==>
            && recordatorio != SinRecordatorio
            && event.Some?
            && event.value - MinutesBefore(recordatorio) * MinuteMillis >= now + MinuteMillis)
      && (d.Schedule? ==> now + MinuteMillis <= d.trigger <= event.value)
  {
  }

  /** A pending alarm: when it fires and what its notification shows. */
  datatype Alarm = Alarm(trigger: int, fecha: string, hora: string, categoria: string, descripcion: string)

  /** The alarm manager's pending alarms, one per event id (the request code). */
  class AlarmScheduler {
    var alarms: map<int, Alarm>

    constructor ()
      ensures alarms == map[]
    {
      alarms := map[];
    }

    /**
     * `scheduleAlarm`: returns early without a reminder, on a parse failure
     * or when the trigger is less than a minute away; otherwise registers
     * the alarm under the event id, replacing any earlier one for that id.
     */
    method ScheduleAlarm(eventoId: int, fecha: string, hora: string, categoria: string,
                         descripcion: string, recordatorio: string,
                         now: int, parse: string -> Option<int>)
      modifies this
      ensures var d := ScheduleDecision(fecha, hora, recordatorio, now, parse);
        alarms == if d.Schedule? then old(alarms)[eventoId := Alarm(d.trigger, fecha, hora, categoria, descripcion)]
                  else old(alarms)
    {
      if recordatorio == SinRecordatorio {
        return;
      }
      var triggerTimeMillis := CalculateTriggerTime(fecha, hora, recordatorio, parse);
      if triggerTimeMillis.None? {
        return;
      }
      var timeUntilAlarm := triggerTimeMillis.value - now;
      if timeUntilAlarm < 60000 {
        return;
      }
      alarms := alarms[eventoId := Alarm(triggerTimeMillis.value, fecha, hora, categoria, descripcion)];
    }

    /** `cancelAlarm`: drops the alarm of this event id and no other. */
    method CancelAlarm(eventoId: int)
      modifies this
      ensures alarms == old(alarms) - {eventoId}
      ensures eventoId !in alarms
      ensures forall k :: k != eventoId ==> (k in alarms <==> k in old(alarms))
      ensures forall k :: k in alarms ==> alarms[k] == old(alarms)[k]
    {
      alarms := alarms - {eventoId};
    }
  }
}
