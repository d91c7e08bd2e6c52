/** The greeting of React/Utils/getTimeOfDayGreeting.ts, from the hour of
    the current local time. */
module Greeting {

  const Evening: string := "Good evening"
  const Afternoon: string := "Good afternoon"
  const Morning: string := "Good morning"

  /** `getTimeOfDayGreeting()` at local hour `hour`. */
  function TimeOfDayGreeting(hour: int): (g: string)
    ensures g in {Evening, Afternoon, Morning}
  {
    if hour >= 18 || hour < 5 then Evening
    else if hour >= 12 then Afternoon
    else Morning
  }

  /** The three greetings split the day: evening from 18:00 to 04:59,
      afternoon from 12:00 to 17:59, morning from 05:00 to 11:59. */
  lemma GreetingByHour(hour: int)
    requires 0 <= hour <= 23
    ensures TimeOfDayGreeting(hour) == Evening <==> (18 <= hour || hour < 5)
    ensures TimeOfDayGreeting(hour) == Afternoon <==> 12 <= hour < 18
    ensures TimeOfDayGreeting(hour) == Morning <==> 5 <= hour < 12
  {
  }
}
