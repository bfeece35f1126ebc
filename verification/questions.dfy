/** The fixed question bank the quiz draws from. */
module Questions {

  /** One quiz question: a prompt, four options, the index of the right one
      and the explanation shown after answering. */
  datatype Question = Question(
    question: string,
    options: seq<string>,
    correctAnswer: int,
    explanation: string)

  /** The shape every question in the bank has. */
  predicate WellFormed(q: Question) {
    |q.options| == 4 && 0 <= q.correctAnswer < |q.options|
  }

  /** How many questions a quiz has; the page hard-codes it as the last index 9 and
      the "/10" of its summary. */
  const QuestionCount := 10

  /** The bank, in its declared order. */
  const Bank: seq<Question> := [
    Question(
      "What is the capital of Australia?",
      ["Sydney", "Melbourne", "Canberra", "Brisbane"],
      2,
      "Canberra is the capital of Australia. Many people mistakenly think it's Sydney, which is the largest city."),
    Question(
      "Which river is the longest in the world?",
      ["Amazon River", "Nile River", "Yangtze River", "Mississippi River"],
      1,
      "The Nile River in Africa is the longest river in the world at approximately 6,650 km."),
    Question(
      "Which country has the most time zones?",
      ["Russia", "USA", "France", "China"],
      2,
      "France has the most time zones (12) due to its overseas territories scattered across the world."),
    Question(
      "What is the smallest country in the world?",
      ["Monaco", "Vatican City", "San Marino", "Liechtenstein"],
      1,
      "Vatican City is the smallest country in the world with an area of approximately 0.44 square kilometers."),
    Question(
      "Which desert is the largest in the world?",
      ["Sahara Desert", "Arabian Desert", "Antarctic Desert", "Gobi Desert"],
      2,
      "The Antarctic Desert is the largest desert in the world. Deserts are defined by low precipitation, not temperature!"),
    Question(
      "Mount Everest is located in which mountain range?",
      ["Alps", "Andes", "Himalayas", "Rockies"],
      2,
      "Mount Everest is part of the Himalayan mountain range, on the border between Nepal and Tibet."),
    Question(
      "Which country has the longest coastline?",
      ["Australia", "Russia", "Canada", "Indonesia"],
      2,
      "Canada has the world's longest coastline at over 202,080 km due to its many islands."),
    Question(
      "What is the deepest point in the ocean?",
      ["Tonga Trench", "Java Trench", "Mariana Trench", "Philippine Trench"],
      2,
      "The Mariana Trench's Challenger Deep is the deepest known point in Earth's oceans at approximately 11,000 meters deep."),
    Question(
      "Which country is home to the most volcanoes?",
      ["Japan", "Indonesia", "Philippines", "United States"],
      1,
      "Indonesia has the most volcanoes of any country, with over 130 active volcanoes."),
    Question(
      "What is the largest island in the world?",
      ["New Guinea", "Borneo", "Greenland", "Madagascar"],
      2,
      "Greenland is the world's largest island (excluding Australia, which is considered a continent).")
  ]

  /** The bank holds ten questions, each with four options and an in-range answer. */
  lemma BankWellFormed()
    ensures |Bank| == QuestionCount
    ensures forall i :: 0 <= i < |Bank| ==> WellFormed(Bank[i])
  {
  }

  /** A reordering of `bank`: what sorting a copy with a random comparator yields
      (the length is implied by the multiset; it is spelled out for convenience). */
  predicate IsShuffle(order: seq<Question>, bank: seq<Question>) {
    |order| == |bank| && multiset(order) == multiset(bank)
  }

  /** The first question of a reordering comes from the bank. */
  lemma ShuffleFirstInBank(order: seq<Question>, bank: seq<Question>)
    requires IsShuffle(order, bank) && |bank| > 0
    ensures order[0] in bank
  {
    assert order[0] in multiset(order);
  }
}
