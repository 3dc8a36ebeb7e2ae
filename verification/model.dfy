/**
 * The persisted records of the project-management store (the tables of
 * model/tasks.py and model/project.py) and the store itself: one finite map
 * per keyed table, a sequence for the unkeyed dependency table, and the
 * autoincrement counter the database hands new ids from.
 */
module Model {
  import opened Wrappers

  /** The identity provider's user id, an opaque string. */
  type UserId = string

  /** Task priority: a string enum with three members. */
  datatype Priority = LOW | MEDIUM | HIGH

  /** The string value of a priority member. */
  function PriorityValue(p: Priority): string {
    match p
    case LOW => "LOW"
    case MEDIUM => "MEDIUM"
    case HIGH => "HIGH"
  }

  /** `Priority(s)`: the member whose value is `s`; `None` is the ValueError the enum lookup raises. */
  function PriorityOf(s: string): (r: Option<Priority>)
    ensures forall p :: r == Some(p) <==> PriorityValue(p) == s
  {
    if s == "LOW" then Some(LOW)
    else if s == "MEDIUM" then Some(MEDIUM)
    else if s == "HIGH" then Some(HIGH)
    else None
  }

  /** Project membership role: a string enum with two members. */
  datatype Role = OWNER | COLLABORATOR

  function RoleValue(r: Role): string {
    match r
    case OWNER => "OWNER"
    case COLLABORATOR => "COLLABORATOR"
  }

  /** `Role(s)`; `None` is the ValueError of the enum lookup. */
  function RoleOf(s: string): (r: Option<Role>)
    ensures forall q :: r == Some(q) <==> RoleValue(q) == s
  {
    if s == "OWNER" then Some(OWNER)
    else if s == "COLLABORATOR" then Some(COLLABORATOR)
    else None
  }

  /** The enum values are pairwise distinct, so the value determines the member. */
  lemma EnumValuesDistinct(p: Priority, q: Priority, a: Role, b: Role)
    ensures PriorityValue(p) == PriorityValue(q) ==> p == q
    ensures RoleValue(a) == RoleValue(b) ==> a == b
  {
  }

  datatype Project = Project(id: int, name: string, createdAt: int, startingDate: int)

  /** A membership row; the table's key is the pair (projectId, userId). */
  datatype ProjectMember = ProjectMember(projectId: int, userId: UserId, role: Role, joinedAt: int)

  /** `redeemLimit == None` means unlimited redemptions. */
  datatype InvitationCode = InvitationCode(
    code: string, projectId: int, createdAt: int, expiredAt: int, redeemLimit: Option<int>)

  datatype Milestone = Milestone(id: int, projectId: int, name: string, description: string, dueDate: int)

  datatype Status = Status(id: int, projectId: int, name: string, description: string)

  /**
   * A task. The table declares `milestone_id` non-nullable, but tasks are
   * created with no milestone and may be unassigned, so it is optional here;
   * `name`, `start_date` and `end_date` are used by every caller though the
   * table does not declare them.
   */
  datatype Task = Task(
    id: int, name: string, description: string, priority: Priority,
    statusId: int, milestoneId: Option<int>,
    startDate: Option<int>, endDate: Option<int>)

  /** An assignment row; the table's key is the pair (taskId, userId). */
  datatype TaskAssignment = TaskAssignment(taskId: int, userId: UserId, assignedAt: int)

  /** `dependant` depends on `dependency`; both columns are nullable. */
  datatype TaskDependency = TaskDependency(dependencyId: Option<int>, dependantId: Option<int>)

  /** Every exception the operations of the store raise. */
  datatype Error =
    | ExistingMilestoneNameError
    | ExistingStatusNameError
    | ExistingTaskNameError
    | TaskAlreadyAssignedError
    | CyclicDependencyError
    | InvalidTaskIDError
    | InvalidStatusIDError
    | InvalidMilestoneIDError
      /** The `assert parent_status is not None` of rename_task failing. */
    | ParentStatusMissing
    | ExistingProjectNameError
    | TooShortProjectNameError
    | UnauthorizedError(role: Role)
      /** Raised by the unseen get_project for an unknown id. */
    | InvalidProjectIDError
      /** Raised by the unseen update_task_dates. */
    | DateError

  /**
   * The relational store. Composite primary keys become tuple keys; the
   * invitation-code table, keyed by the code string, is kept as its rows in
   * insertion order.
   */
  datatype Store = Store(
    projects: map<int, Project>,
    members: map<(int, UserId), ProjectMember>,
    codes: seq<InvitationCode>,
    milestones: map<int, Milestone>,
    statuses: map<int, Status>,
    tasks: map<int, Task>,
    assignments: map<(int, UserId), TaskAssignment>,
    dependencies: seq<TaskDependency>,
    nextId: int)

  /** Every row is stored under its own primary key. */
  predicate KeysMatch(s: Store) {
    && (forall k :: k in s.projects ==> s.projects[k].id == k)
    && (forall k :: k in s.members ==> s.members[k].projectId == k.0 && s.members[k].userId == k.1)
    && CodesDistinct(s.codes)
    && (forall k :: k in s.milestones ==> s.milestones[k].id == k)
    && (forall k :: k in s.statuses ==> s.statuses[k].id == k)
    && (forall k :: k in s.tasks ==> s.tasks[k].id == k)
    && (forall k :: k in s.assignments ==> s.assignments[k].taskId == k.0 && s.assignments[k].userId == k.1)
  }

  /** No two invitation-code rows carry the same code. */
  predicate CodesDistinct(codes: seq<InvitationCode>) {
    forall i, j :: 0 <= i < j < |codes| ==> codes[i].code != codes[j].code
  }

  /** The autoincrement counter lies above every id handed out so far. */
  predicate IdsBelowCounter(s: Store) {
    && (forall k :: k in s.projects ==> k < s.nextId)
    && (forall k :: k in s.members ==> k.0 < s.nextId)
    && (forall k :: k in s.milestones ==> k < s.nextId)
    && (forall k :: k in s.statuses ==> k < s.nextId)
    && (forall k :: k in s.tasks ==> k < s.nextId)
  }

  /** What the database itself guarantees about its tables. */
  predicate Valid(s: Store) {
    KeysMatch(s) && IdsBelowCounter(s)
  }

  /** A store with no rows. */
  function EmptyStore(): (s: Store)
    ensures Valid(s)
  {
    Store(map[], map[], [], map[], map[], map[], map[], [], 1)
  }
}
