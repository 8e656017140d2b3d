/** The records the tracker stores. Dates are day numbers (consecutive
    calendar days differ by one); timestamps are milliseconds. */
module HabitModel {

  type Day = int

  datatype Option<T> = None | Some(value: T)

  /** One tracked habit; `completedDates` is kept in the order the store leaves it. */
  datatype Habit = Habit(
    id: string,
    name: string,
    description: string,
    category: string,
    color: string,
    completedDates: seq<Day>,
    currentStreak: int,
    longestStreak: int,
    targetFrequency: int,
    createdAt: int)

  /** What the add-habit form hands to the store: a habit without identity, dates or streaks. */
  datatype Draft = Draft(
    name: string,
    description: string,
    category: string,
    color: string,
    targetFrequency: int)

  /** A partial habit: every present field overrides the habit's own. */
  datatype HabitPatch = HabitPatch(
    id: Option<string>,
    name: Option<string>,
    description: Option<string>,
    category: Option<string>,
    color: Option<string>,
    completedDates: Option<seq<Day>>,
    currentStreak: Option<int>,
    longestStreak: Option<int>,
    targetFrequency: Option<int>,
    createdAt: Option<int>)

  /** The patch that changes nothing. */
  const EmptyPatch := HabitPatch(None, None, None, None, None, None, None, None, None, None)

  function Override<T>(patch: Option<T>, current: T): T
  {
    match patch
    case Some(v) => v
    case None => current
  }

  /** The habit with every field the patch carries replaced by the patch's value. */
  function Merge(h: Habit, p: HabitPatch): Habit
  {
    Habit(
      Override(p.id, h.id),
      Override(p.name, h.name),
      Override(p.description, h.description),
      Override(p.category, h.category),
      Override(p.color, h.color),
      Override(p.completedDates, h.completedDates),
      Override(p.currentStreak, h.currentStreak),
      Override(p.longestStreak, h.longestStreak),
      Override(p.targetFrequency, h.targetFrequency),
      Override(p.createdAt, h.createdAt))
  }
}
