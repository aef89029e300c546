# Polls: publication visibility and voting

A model of the request-handling rules of a small Django polling
application (`mysite/polls/views.py`). The store holds questions, each with a
primary key and a publication timestamp, and choices, each with a primary
key, the key of the question it belongs to and a vote counter. Timestamps
are integers and the server clock is an argument `now`.

- `Models` (`models.dfy`): the `Question` and `Choice` records, the lookup of
  a question by primary key (`get_object_or_404`) and the well-formedness
  of a store (unique question keys, every choice filed under its own key and
  belonging to a stored question).
- `Views` (`views.dfy`): the read-only queries as functions. The index
  listing keeps the questions published at or before `now`, orders them
  newest first and keeps the first five. The detail page looks the key up
  among the questions published strictly before `now`. The results page
  looks the key up among all questions. A 404 response is `None`.
- `Voting` (`voting.dfy`): the vote view. `VoteOn` is its specification on
  values. The class `Store` holds the question sequence, which never changes at run
  time, and the choice map.
  `Store.Vote` changes the store in place through the atomic relative
  increment `Store.IncrementVotes`, which stands for the `F('votes') + 1`
  update. The answers are `NotFound`, `ErrorRerender(question, message)` and
  `Redirect(questionId)`.

The two visibility boundaries differ in the code, and the model keeps that
difference. The listing admits `pubDate <= now` (views.py line 16). The
detail page admits only `pubDate < now` (views.py line 28). A question
published exactly at `now` is eligible for the listing but its detail page is a 404
(`Views.PublishedNowListableNotViewable`).

On two points the model follows the code rather than a looser reading of
the application's behaviour:
- A malformed (non-integer) choice value is not a recovered error in the
  code, because only `KeyError` and `Choice.DoesNotExist` are caught. The
  submitted field is therefore `Option<int>`: missing or an integer.
- Ties in publication time are ordered by the database in the code, not
  by insertion order. The model orders ties by store order, which is one
  admissible order. It proves only what the code fixes: newest first, and
  the same questions as the eligible ones.

## Model

| member | source | states |
|---|---|---|
| `Models.FindQuestion` | mysite/polls/views.py:52 | finds a stored question carrying the key, and finds nothing exactly when no stored question carries it |
| `Models.FindQuestionExact` | mysite/polls/views.py:52 | with unique keys, the lookup yields `q` if and only if `q` is stored under that key |
| `Views.PublishedBy` | mysite/polls/views.py:16 | keeps exactly the stored questions with `pubDate <= now`, each as many times as it is stored |
| `Views.PublishedBefore` | mysite/polls/views.py:28 | keeps exactly the stored questions with `pubDate < now`, each as many times as it is stored |
| `Views.InsertByDateSound` | mysite/polls/views.py:16 | inserting into a newest-first sequence adds exactly that question and keeps the sequence newest first |
| `Views.NewestFirstSound` | mysite/polls/views.py:16 | ordering by `-pub_date` is a permutation of its input whose timestamps never increase |
| `Views.Ranked` | mysite/polls/views.py:16 | the eligible questions, ordered, are a permutation of the published ones, newest first |
| `Views.Index` | mysite/polls/views.py:15-16 | the listing has at most five entries, newest first, and is a sub-multiset of the published questions, so no question appears more often than it is stored |
| `Views.IndexKeepsNewest` | mysite/polls/views.py:16 | a published question left out of the listing comes with a full page and is no newer than any listed question |
| `Views.IndexShowsAllWhenFew` | mysite/polls/views.py:16 | with at most five published questions, the listing holds exactly those questions, as a multiset |
| `Views.IndexLength` | mysite/polls/views.py:16 | the listing's length is the smaller of five and the number of published questions |
| `Views.IndexEmptyWhenNothingPublished` | mysite/polls/tests.py:50-57 | with no question published by `now`, the listing is empty |
| `Views.PastAndFutureQuestion` | mysite/polls/tests.py:78-86 | of one past and one future question, only the past one is listed |
| `Views.TwoPastQuestions` | mysite/polls/tests.py:88-96 | two past questions are listed newer first, whichever is stored first |
| `Views.Detail` | mysite/polls/views.py:23-28 | the detail page shows a stored question with that key and `pubDate < now`, and is a 404 exactly when every stored question with that key has `pubDate >= now` |
| `Views.DetailExact` | mysite/polls/views.py:28 | with unique keys, the detail page shows `q` if and only if `q` is stored under the key and published strictly before `now` |
| `Views.PublishedNowListableNotViewable` | mysite/polls/views.py:15-28 | a question published exactly at `now` is eligible for the listing and has a results page, but its detail page is a 404 |
| `Views.DetailImpliesListedAndResults` | mysite/polls/views.py:15-33 | a question with a detail page is eligible for the listing, and the results page shows the same question |
| `Views.Results` | mysite/polls/views.py:31-33 | the results page shows a stored question with the key, whatever its timestamp, and is a 404 exactly when the key is unknown |
| `Voting.SelectedChoice` | mysite/polls/views.py:53-55 | selects the submitted choice if and only if the field is present and names a stored choice of this question |
| `Voting.AddVote` | mysite/polls/views.py:65-66 | the selected counter is exactly one higher; every other choice and the set of keys are unchanged |
| `Voting.VoteOn` | mysite/polls/views.py:51-68 | 404 exactly for an unknown question key; the error re-render with "You didn't select a choice." exactly when the question exists but the field is missing or names no choice of it; on either error the choices are unchanged; otherwise a redirect to that question's results with one more vote on the selected choice and nothing else changed |
| `Voting.VoteChangesIffRedirect` | mysite/polls/views.py:55-68 | a vote changes the choices if and only if it answers with a redirect |
| `Voting.VotePreservesWellFormed` | mysite/polls/views.py:65-66 | a vote keeps the store well formed |
| `Voting.VoteIgnoresPublication` | mysite/polls/views.py:52 | a question whose detail page is a 404 because it is not yet published is still resolved by the vote, and a valid choice of it is counted |
| `Voting.Store.IncrementVotes` | mysite/polls/views.py:65-66 | the atomic relative update: one more vote on the given choice, all else unchanged, store stays well formed |
| `Voting.Store.Vote` | mysite/polls/views.py:51-68 | the new choices and the answer are those of `VoteOn` on the old store; the selected counter rises by one on a redirect; every other counter is unchanged; an error re-render carries the one stored question with key `pk`; the store stays well formed |

## Left out

- Routing, template rendering, `reverse()` URL building and response
  objects: the answers are the `Outcome` datatype and `Option` (None is the
  404 response). The detail and results pages' rendering of choices and
  vote counts is not modelled.
- The server clock and time zones: `now` is an integer argument.
- Concurrency: the `F('votes') + 1` update is one atomic step
  (`Store.IncrementVotes`). Lost-update freedom between concurrent requests
  is not modelled.
- Parsing of the raw form value: the submitted choice is `Option<int>`. A
  non-integer value raises an exception the code does not catch, so it has
  no modelled outcome.
- `Question.was_published_recently`: `mysite/polls/models.py` is not part
  of this model, so its implementation cannot be checked.
- Question text, choice text and the creation of questions and choices:
  they are created outside the request handlers, and the store is taken as
  given (`Store` constructor).
- Duplicate primary keys: the database forbids them. The lookups return
  the first match in store order, and the exact-lookup properties assume
  unique keys (`UniqueIds`).
- The commented-out function views in `mysite/polls/views.py` (lines 36-48).
