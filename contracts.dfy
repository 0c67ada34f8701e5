/** The records the upstream client hands to the rest of the backend (`IStepikApiClient`). */
module Contracts {
  import opened Common

  /** A course as the upstream describes it; `score` is its average rating. */
  datatype StepikCourseInfo = StepikCourseInfo(
    id: int,
    title: string,
    summary: Option<string>,
    cover: Option<string>,
    learnersCount: int,
    score: Option<real>,
    certificatesCount: Option<int>)

  /** One attempt at a step; `time` in ticks. */
  datatype StepikSubmission = StepikSubmission(
    id: int,
    stepId: int,
    userId: int,
    status: string,
    time: int)

  datatype StepikCourseStats = StepikCourseStats(
    courseId: int,
    learnersCount: int,
    certificatesCount: int,
    averageScore: Option<real>,
    reviewsCount: int)

  /** A learner's review of a course; `createDate` in ticks. */
  datatype StepikReview = StepikReview(
    id: int,
    courseId: int,
    userId: int,
    score: int,
    text: Option<string>,
    createDate: int)
}
