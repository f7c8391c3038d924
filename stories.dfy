/**
 * The result-list state of the Hacker News search client and the reducer
 * that folds the four fetch/remove actions into it.
 */
module Stories {
  import opened Seqs

  /** A story identity: a JavaScript number or string, compared strictly (so `1` and `"1"` differ). */
  datatype ObjectId = Num(n: int) | Str(s: string)

  datatype Story = Story(
    objectID: ObjectId,
    url: string,
    title: string,
    author: string,
    num_comments: int,
    points: int)

  datatype StoriesState = StoriesState(
    data: seq<Story>,
    page: int,
    isLoading: bool,
    isError: bool)

  /**
   * The closed set of actions. Because the datatype is closed, the reducer's
   * fallback `throw` for an unknown tag has no counterpart: every match is exhaustive.
   * `FetchInit` carries a page that the reducer ignores.
   */
  datatype StoriesAction =
    | FetchInit(initPage: int)
    | FetchSuccess(list: seq<Story>, page: int)
    | FetchFailure
    | RemoveStory(story: Story)

  /** The state the application starts from. */
  const InitialState := StoriesState([], 0, false, false)

  /** The stories of `data` whose identity differs from `id`, in their original order. */
  function RemoveById(data: seq<Story>, id: ObjectId): (r: seq<Story>)
    ensures |r| <= |data|
    ensures forall s :: s in r <==> s in data && s.objectID != id
    // every matching occurrence goes, every other story keeps its number of occurrences
    ensures forall s :: multiset(r)[s] == if s.objectID == id then 0 else multiset(data)[s]
  {
    if data == [] then []
    else
      assert data == [data[0]] + data[1..];
      if data[0].objectID != id then [data[0]] + RemoveById(data[1..], id)
      else RemoveById(data[1..], id)
  }

  /** The stories of `data` whose identity is `id`, in their original order. */
  function KeepById(data: seq<Story>, id: ObjectId): (r: seq<Story>)
    ensures forall s :: s in r <==> s in data && s.objectID == id
  {
    if data == [] then []
    else if data[0].objectID == id then [data[0]] + KeepById(data[1..], id)
    else KeepById(data[1..], id)
  }

  /** The reducer: a new state from the current state and one action. */
  function Reduce(state: StoriesState, action: StoriesAction): (r: StoriesState)
    // only a success moves the page, and only to the page it reports
    ensures r.page == (if action.FetchSuccess? then action.page else state.page)
    // after a fetch action the flags tell which of the three fetch events came last
    ensures !action.RemoveStory? ==> r.isLoading == action.FetchInit? && r.isError == action.FetchFailure?
    ensures action.RemoveStory? ==> r.isLoading == state.isLoading && r.isError == state.isError
    ensures action.FetchInit? || action.FetchFailure? ==> r.data == state.data
    // a success replaces the list on page 0 and appends to it otherwise
    ensures action.FetchSuccess? && action.page == 0 ==> r.data == action.list
    ensures action.FetchSuccess? && action.page != 0 ==> r.data == state.data + action.list
    ensures action.RemoveStory? ==>
      IsSubsequence(r.data, state.data) &&
      (forall s :: s in r.data <==> s in state.data && s.objectID != action.story.objectID) &&
      forall s :: multiset(r.data)[s] == if s.objectID == action.story.objectID then 0 else multiset(state.data)[s]
  {
    match action
    case FetchInit(_) => state.(isLoading := true, isError := false)
    case FetchSuccess(list, page) =>
      state.(
        isLoading := false,
        isError := false,
        data := if page == 0 then list else state.data + list,
        page := page)
    case FetchFailure => state.(isLoading := false, isError := true)
    case RemoveStory(story) =>
      RemoveSubsequence(state.data, story.objectID);
      state.(data := RemoveById(state.data, story.objectID))
  }

  /** Removal keeps the surviving stories in their original relative order. */
  lemma {:induction false} RemoveSubsequence(data: seq<Story>, id: ObjectId)
    ensures IsSubsequence(RemoveById(data, id), data)
  {
    if data != [] {
      var x, tail := data[0], data[1..];
      var rest := RemoveById(tail, id);
      RemoveSubsequence(tail, id);
      assert [x] + tail == data;
      if x.objectID != id {
        assert RemoveById(data, id) == [x] + rest;
        SubsequenceConsBoth(x, rest, tail);
      } else {
        assert RemoveById(data, id) == rest;
        SubsequenceSkipsHead(rest, x, tail);
      }
    }
  }

  /** Removing an identity that no story carries leaves the list as it was. */
  lemma {:induction false} RemoveAbsent(data: seq<Story>, id: ObjectId)
    requires forall s :: s in data ==> s.objectID != id
    ensures RemoveById(data, id) == data
  {
    if data != [] {
      var x, tail := data[0], data[1..];
      assert data == [x] + tail;
      assert x in data;
      assert forall s :: s in tail ==> s in data;
      RemoveAbsent(tail, id);
      assert RemoveById(data, id) == [x] + RemoveById(tail, id);
    }
  }

  /** Removing the same identity twice removes no more than removing it once. */
  lemma RemoveTwice(data: seq<Story>, id: ObjectId)
    ensures RemoveById(RemoveById(data, id), id) == RemoveById(data, id)
  {
    RemoveAbsent(RemoveById(data, id), id);
  }

  /** The dispatched form: a REMOVE_STORY for an absent identity changes nothing at all. */
  lemma ReduceRemoveAbsent(state: StoriesState, story: Story)
    requires forall s :: s in state.data ==> s.objectID != story.objectID
    ensures Reduce(state, RemoveStory(story)) == state
  {
    RemoveAbsent(state.data, story.objectID);
  }

  /** The dispatched form: dispatching the same REMOVE_STORY twice equals dispatching it once. */
  lemma ReduceRemoveIdempotent(state: StoriesState, story: Story)
    ensures Reduce(Reduce(state, RemoveStory(story)), RemoveStory(story)) == Reduce(state, RemoveStory(story))
  {
    RemoveTwice(state.data, story.objectID);
  }

  /** A fresh first page followed by a second page shows both pages in order. */
  lemma ReducePagination(state: StoriesState, first: seq<Story>, second: seq<Story>, page: int)
    requires page != 0
    ensures Reduce(Reduce(state, FetchSuccess(first, 0)), FetchSuccess(second, page)) ==
            StoriesState(first + second, page, false, false)
  {
  }

  /** Loading and error are never both set once any action has been applied to a state without both. */
  lemma ReduceFlagsExclusive(state: StoriesState, action: StoriesAction)
    requires !(state.isLoading && state.isError)
    ensures !(Reduce(state, action).isLoading && Reduce(state, action).isError)
  {
  }

  const StoryOne := Story(Str("0"), "https://reactjs.org/", "React", "Jordan Walke", 3, 4)
  const StoryTwo := Story(Num(1), "https://redux.js.org/", "Redux", "Dan Abramov, Andrew Clark", 2, 5)

  /** Removing the first of two stories leaves the second; the page is kept. */
  lemma RemoveStoryExample()
    ensures Reduce(StoriesState([StoryOne, StoryTwo], 0, false, false), RemoveStory(StoryOne)) ==
            StoriesState([StoryTwo], 0, false, false)
  {
    var data := [StoryOne, StoryTwo];
    assert data[1..] == [StoryTwo];
    assert [StoryTwo][1..] == [];
  }

  /** The string identity "1" and the numeric identity 1 are different stories. */
  lemma StrictIdentity(state: StoriesState, story: Story)
    requires state.data == [story] && story.objectID == Num(1)
    ensures Reduce(state, RemoveStory(story.(objectID := Str("1")))).data == [story]
  {
    assert [story][1..] == [];
  }

  // ----- the comment count in the heading -----

  /** The sum of `num_comments`, as a plain recursive definition. */
  function TotalComments(data: seq<Story>): int
  {
    if data == [] then 0 else data[0].num_comments + TotalComments(data[1..])
  }

  /** `reduce((result, value) => result + value.num_comments, acc)`: a left fold. */
  function FoldComments(acc: int, data: seq<Story>): (r: int)
    ensures r == acc + TotalComments(data)
    decreases data
  {
    if data == [] then acc else FoldComments(acc + data[0].num_comments, data[1..])
  }

  /** `getSumComments`: the fold started at 0. */
  function GetSumComments(stories: StoriesState): (r: int)
    ensures r == TotalComments(stories.data)
    ensures stories.data == [] ==> r == 0
  {
    FoldComments(0, stories.data)
  }

  /** The comment total splits into the removed stories and the surviving ones. */
  lemma {:induction false} TotalCommentsSplit(data: seq<Story>, id: ObjectId)
    ensures TotalComments(data) == TotalComments(RemoveById(data, id)) + TotalComments(KeepById(data, id))
  {
    if data != [] {
      TotalCommentsSplit(data[1..], id);
      var rest := RemoveById(data[1..], id);
      var kept := KeepById(data[1..], id);
      assert ([data[0]] + rest)[1..] == rest;
      assert ([data[0]] + kept)[1..] == kept;
    }
  }

  /** REMOVE_STORY lowers the heading's count by the comments of the stories it drops. */
  lemma RemoveLowersComments(state: StoriesState, story: Story)
    ensures GetSumComments(Reduce(state, RemoveStory(story))) ==
            GetSumComments(state) - TotalComments(KeepById(state.data, story.objectID))
  {
    TotalCommentsSplit(state.data, story.objectID);
  }
}
